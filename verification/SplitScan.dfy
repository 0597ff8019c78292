/** The code of the split scan: the scanner object, the scan over a shared stream, and the replay into lines. */
module SplitScan {
  import opened Bytes
  import opened Streams
  import opened Lines
  import opened Spans
  import opened Scanner
  import opened Naming
  import opened Split
  import opened SplitLaws
  import opened PlainSplit
  import opened SpanCopy
  import opened LiteralSearch

  /** The scanner of split sections. Delimiters are matched and spans hashed on the stream that is being scanned. */
  class SplitSeekScanner {
    const job: SplitJob
    const src: Source
    var meta: seq<SectionMeta>
    var outSecs: nat
    var delHits: nat
    var existing: set<string>
    var sawDelimiter: bool
    var pending: Option<LineSpan>
    var preambleDone: bool
    var nextSeq: nat
    var lastLine: nat
    var tail: nat

    constructor (job: SplitJob, src: Source)
      requires src.data == job.data && |src.data| <= MAX_INT64
      ensures this.job == job && this.src == src && Abs() == INITIAL && Valid()
    {
      this.job, this.src := job, src;
      meta, outSecs, nextSeq, existing := [], 0, 1, {};
      delHits, sawDelimiter, pending, preambleDone, lastLine, tail := 0, false, None, false, 0, 0;
    }

    ghost function Out(): SplitOut
      reads this
    {
      SplitOut(meta, outSecs, nextSeq, None)
    }

    /** The names taken are the sequential ones given out, so none ever needs a suffix. */
    ghost predicate NamesTaken()
      reads this
    {
      nextSeq > 0 && existing == NamesUpTo(job.ext, nextSeq - 1)
    }

    /** The pending delimiter line lies before offset at. */
    ghost predicate PendingBefore(at: nat)
      reads this
    {
      && at <= |src.data|
      && (pending.Some? ==> pending.value.start <= pending.value.end <= at)
    }

    ghost predicate Valid()
      reads this
    {
      && src.data == job.data && |src.data| <= MAX_INT64
      && NamesTaken() && PendingBefore(tail) && (sawDelimiter ==> preambleDone)
    }

    ghost function Abs(): SplitState
      reads this
    {
      SplitState(Out(), delHits, sawDelimiter, pending, preambleDone, lastLine, tail)
    }

    /** Appends one section under the next name and checks the cap. */
    method PushSection(g: Geometry, isPreamble: bool, delimiterLine: nat, fingerprint: Digest)
      returns (err: Option<SplitError>)
      requires g.Geometry? && NamesTaken() && fingerprint == job.sha(Slice(job.data, g.byteFrom, g.byteTo))
      modifies this`meta, this`outSecs, this`existing, this`nextSeq
      ensures Out().(failure := err) == old(Split.PushSection(job, Out(), g, isPreamble, delimiterLine))
      ensures NamesTaken()
    {
      NextNameIsFree(job.ext, nextSeq - 1);
      var ordinal := nextSeq;
      nextSeq := nextSeq + 1;
      var name;
      name, existing := DeduplicateFilename(SequentialFilename(ordinal, job.ext), existing);
      meta := meta + [SectionMeta(name, g.startLine, g.endLine, g.lineCount, g.byteFrom, g.byteTo, ordinal,
                                  isPreamble, delimiterLine, fingerprint)];
      outSecs := outSecs + 1;
      err := EnforceMaxSections(job.maxFiles, outSecs);
    }

    method FlushPreamble(firstDelimLine: nat, byteBefore: nat) returns (ok: bool, err: Option<SplitError>)
      requires NamesTaken() && src.data == job.data && byteBefore <= |src.data| <= MAX_INT64
      modifies this`preambleDone, this`meta, this`outSecs, this`existing, this`nextSeq, src
      ensures ok ==> Out().(failure := err) == old(Split.FlushPreamble(job, Abs(), firstDelimLine, byteBefore))
      ensures ok ==> preambleDone && NamesTaken()
      ensures (!ok || old(src.faulted)) ==> src.faulted
    {
      if preambleDone {
        return true, None;
      }
      preambleDone := true;
      if firstDelimLine <= 1 {
        return true, None;
      }
      err := None;
      var fingerprint;
      ok, fingerprint := SHA256SerializedByteSpan(src, 0, byteBefore, job.sha);
      if ok {
        err := PushSection(Geometry(1, firstDelimLine - 1, firstDelimLine - 1, 0, byteBefore), true, 0, fingerprint);
      }
    }

    method FinalizePendingBeforeNextDelim(nextDelimLine: nat, byteBefore: nat)
      returns (ok: bool, err: Option<SplitError>)
      requires NamesTaken() && src.data == job.data && |src.data| <= MAX_INT64 && PendingBefore(byteBefore)
      modifies this`pending, this`meta, this`outSecs, this`existing, this`nextSeq, src
      ensures ok ==> Out().(failure := err) == old(FinalizePending(job, Abs(), nextDelimLine, byteBefore))
      ensures ok ==> NamesTaken()
      ensures (!ok || old(src.faulted)) ==> src.faulted
    {
      if pending == None {
        return true, None;
      }
      var delim := pending.value;
      pending := None;
      if nextDelimLine <= delim.lineNum || delim.end < delim.start {
        return true, Some(EmptySegment);
      }
      var g := ComputeSplitSegOutput(
        job.strip, delim.lineNum, nextDelimLine, delim.start, delim.end - delim.start, byteBefore);
      if g.Skip? {
        return true, None;
      }
      err := None;
      var fingerprint;
      ok, fingerprint := SHA256SerializedByteSpan(src, g.byteFrom, g.byteTo, job.sha);
      if ok {
        err := PushSection(g, false, delim.lineNum, fingerprint);
      }
    }

    method ObserveFirstDelimiter(span: LineSpan) returns (ok: bool, err: Option<SplitError>)
      requires Valid() && PendingBefore(span.start) && span.start <= span.end == tail && !sawDelimiter
      modifies this, src
      ensures ok ==> err == old(ObserveDelimiter(job, Abs(), span)).out.failure
      ensures ok && err == None ==> Abs() == old(ObserveDelimiter(job, Abs(), span)) && Valid()
      ensures (!ok || old(src.faulted)) ==> src.faulted
    {
      delHits := delHits + 1;
      sawDelimiter := true;
      ok, err := FlushPreamble(span.lineNum, span.start);
      if !ok || err.Some? {
        return;
      }
      err := EnforceMaxSections(job.maxFiles, outSecs + 1);
      if err.Some? {
        return;
      }
      pending := Some(span);
    }

    method ObserveLaterDelimiter(span: LineSpan) returns (ok: bool, err: Option<SplitError>)
      requires Valid() && PendingBefore(span.start) && span.start <= span.end == tail && sawDelimiter
      modifies this, src
      ensures ok ==> err == old(ObserveDelimiter(job, Abs(), span)).out.failure
      ensures ok && err == None ==> Abs() == old(ObserveDelimiter(job, Abs(), span)) && Valid()
      ensures (!ok || old(src.faulted)) ==> src.faulted
    {
      delHits := delHits + 1;
      ok, err := FinalizePendingBeforeNextDelim(span.lineNum, span.start);
      if !ok || err.Some? {
        return;
      }
      pending := Some(span);
      err := EnforceMaxSections(job.maxFiles, outSecs + 1);
    }

    method ObserveDelimiterLine(span: LineSpan) returns (ok: bool, err: Option<SplitError>)
      requires Valid() && PendingBefore(span.start) && span.start <= span.end == tail
      modifies this, src
      ensures ok ==> err == old(ObserveDelimiter(job, Abs(), span)).out.failure
      ensures ok && err == None ==> Abs() == old(ObserveDelimiter(job, Abs(), span)) && Valid()
      ensures (!ok || old(src.faulted)) ==> src.faulted
    {
      if sawDelimiter {
        ok, err := ObserveLaterDelimiter(span);
      } else {
        ok, err := ObserveFirstDelimiter(span);
      }
    }

    /** One line of the scan: what the callback does between saving and restoring the offset. */
    method ObserveSplitLineSpanOnSeeker(span: LineSpan) returns (ok: bool, err: Option<SplitError>)
      requires Valid() && SpanFits(src.data, span) && tail <= span.start
      modifies this, src
      ensures ok ==> match old(Callback(job)(Abs(), span))
        case Halt(next) => err == next.out.failure && err.Some?
        case Continue(next) => err == None && Abs() == next && Valid()
      ensures (!ok ==> src.Unsteady()) && (old(src.faulted) ==> src.faulted)
    {
      lastLine := span.lineNum;
      tail := span.end;
      var matched;
      ok, matched := MatchLineSpan(src, span, job.matches, None);
      err := None;
      if ok && matched {
        ok, err := ObserveDelimiterLine(span);
      }
    }

    /** Closes the last section at the end of the source. */
    method Finish() returns (ok: bool, result: SplitResult)
      requires Valid()
      modifies this, src
      ensures ok ==> result == old(Split.Finish(job, Continue(Abs())))
      ensures !ok ==> src.faulted
    {
      if !sawDelimiter {
        return true, SplitFailed(NoDelimiterMatch);
      }
      var err;
      ok, err := FinalizePendingBeforeNextDelim(lastLine + 1, tail);
      result := if err.Some? then SplitFailed(err.value) else SplitDone(meta, delHits);
    }
  }

  /** One line is fed to the scanner, isolated on the shared stream. */
  method FeedScanner(scanner: ScannerState, sc: SplitSeekScanner, span: LineSpan)
    returns (ok: bool, err: Option<SplitError>)
    requires scanner.Valid() && scanner.HandedOver(span) && sc.src == scanner.src
    requires sc.Valid() && sc.tail == scanner.lineBegin
    modifies sc, sc.src
    ensures ok ==> match old(Callback(sc.job)(sc.Abs(), span))
      case Halt(next) => err == next.out.failure && err.Some?
      case Continue(next) => err == None && sc.Abs() == next && sc.Valid() && scanner.Valid()
    ensures ok && err == None ==> sc.tail == span.end
    ensures !ok ==> sc.src.Unsteady()
  {
    var saved;
    scanner.HandedOverFits(span);
    saved, ok := scanner.SaveOffset(span);
    if !ok {
      return false, None;
    }
    ok, err := sc.ObserveSplitLineSpanOnSeeker(span);
    var restored := scanner.RestoreOffset(saved, span);
    ok := ok && (restored || err.Some?);
  }

  /** The scanner of sections has seen exactly the lines handed over so far. */
  ghost predicate InStep(scanner: ScannerState, sc: SplitSeekScanner)
    reads scanner, scanner.buf, scanner.src, sc
  {
    && scanner.Valid() && scanner.Tracks() && sc.Valid() && sc.src == scanner.src && sc.tail == scanner.lineBegin
    && Feed(Callback(sc.job), INITIAL, scanner.emitted) == Continue(sc.Abs())
  }

  datatype LineStep = NextLine | LastLine | Stopped(error: SplitError) | StreamTrouble

  /** One line, handed over, takes both scanners on to the next. */
  method FeedLine(scanner: ScannerState, sc: SplitSeekScanner, span: LineSpan) returns (r: LineStep)
    requires scanner.Valid() && scanner.HandedOver(span) && sc.src == scanner.src
    requires sc.Valid() && sc.tail == scanner.lineBegin
    requires Feed(Callback(sc.job), INITIAL, scanner.emitted) == Continue(sc.Abs())
    modifies scanner`cursor, scanner`lineBegin, scanner`emitted, scanner`base, scanner`fill, scanner.buf
    modifies scanner.src, sc
    ensures !r.LastLine? && (r.NextLine? ==> InStep(scanner, sc) && scanner.emitted == old(scanner.emitted) + [span])
    ensures r.Stopped? ==> ScanResult(sc.job) == SplitFailed(r.error)
    ensures r.StreamTrouble? ==> scanner.src.Unsteady()
  {
    FedOneMore(Callback(sc.job), INITIAL, scanner.emitted, span, SpansOf(scanner.src.data));
    var ok, err := FeedScanner(scanner, sc, span);
    if !ok {
      return StreamTrouble;
    }
    if err.Some? {
      return Stopped(err.value);
    }
    scanner.LineDone(span);
    r := NextLine;
  }

  /** Finds the next line and feeds it to the scanner of sections. */
  method ScanLine(scanner: ScannerState, sc: SplitSeekScanner) returns (r: LineStep)
    requires InStep(scanner, sc)
    modifies scanner, scanner.buf, scanner.src, sc
    ensures scanner.buf == old(scanner.buf) || fresh(scanner.buf)
    ensures r.NextLine? ==> InStep(scanner, sc) && |scanner.emitted| == |old(scanner.emitted)| + 1
    ensures r.NextLine? ==> |scanner.emitted| <= |SpansOf(scanner.src.data)|
    ensures r.LastLine? ==> InStep(scanner, sc) && scanner.emitted == SpansOf(scanner.src.data)
    ensures r.Stopped? ==> ScanResult(sc.job) == SplitFailed(r.error)
    ensures r.StreamTrouble? ==> scanner.src.Unsteady()
  {
    var found := scanner.NextSpan();
    if found.Broken? {
      return StreamTrouble;
    }
    if found.NoMoreSpans? {
      return LastLine;
    }
    r := FeedLine(scanner, sc, found.span);
  }

  /** The whole split scan. The callback seeks and reads the stream that is being scanned; still the result is the
      outcome of the source, and there is none only when the stream gives trouble. */
  method ScanSplitSectionsMeta(src: Source, job: SplitJob) returns (ok: bool, result: SplitResult)
    requires src.data == job.data && |src.data| <= MAX_INT64
    modifies src
    ensures ok ==> result == SplitOutcome(job) && SplitReads(job, result)
    ensures !ok ==> src.Unsteady()
  {
    SplitInLines(job);
    result := SplitFailed(NoDelimiterMatch);
    ok := src.SeekTo(0);
    if !ok {
      return;
    }
    MachineYieldsOutcome(job);
    var scanner := new ScannerState(src, if job.maxFiles > 0 then BOUNDED_CHUNK_SIZE else DEFAULT_CHUNK_SIZE);
    var sc := new SplitSeekScanner(job, src);
    var r := NextLine;
    while r == NextLine
      invariant r == NextLine || r == LastLine ==> InStep(scanner, sc)
      invariant scanner.src == src && sc.job == job && fresh(scanner) && fresh(scanner.buf) && fresh(sc)
      invariant r == LastLine ==> scanner.emitted == SpansOf(src.data)
      invariant r.Stopped? ==> ScanResult(job) == SplitFailed(r.error)
      invariant r == StreamTrouble ==> src.Unsteady()
      decreases r == NextLine, |SpansOf(src.data)| - |scanner.emitted|
    {
      r := ScanLine(scanner, sc);
    }
    match r
    case Stopped(error) => ok, result := true, SplitFailed(error);
    case StreamTrouble => ok := false;
    case LastLine => ok, result := sc.Finish();
  }

  // ---------- replay of the windows over lines ----------

  datatype ReplayState = ReplayState(sections: seq<seq<Line>>, hint: nat, lineNum: nat)

  ghost predicate Ordered(metas: seq<SectionMeta>) {
    forall i :: 0 <= i < |metas| ==>
      1 <= metas[i].startLine <= metas[i].endLine && (i > 0 ==> metas[i - 1].endLine < metas[i].startLine)
  }

  function AdvanceHint(metas: seq<SectionMeta>, hint: nat, lineNum: nat): nat
    decreases |metas| - hint
  {
    if hint < |metas| && lineNum > metas[hint].endLine then AdvanceHint(metas, hint + 1, lineNum) else hint
  }

  function ReplayNext(metas: seq<SectionMeta>, st: ReplayState, line: Line): Step<ReplayState> {
    var lineNum := st.lineNum + 1;
    var hint := AdvanceHint(metas, st.hint, lineNum);
    if hint >= |metas| || hint >= |st.sections| then Halt(ReplayState(st.sections, hint, lineNum))
    else if lineNum < metas[hint].startLine then Continue(ReplayState(st.sections, hint, lineNum))
    else
      var sections := st.sections[hint := st.sections[hint] + [line]];
      if hint == |metas| - 1 && lineNum == metas[hint].endLine then Halt(ReplayState(sections, hint, lineNum))
      else Continue(ReplayState(sections, hint, lineNum))
  }

  function ReplayLine(metas: seq<SectionMeta>): (ReplayState, Line) -> Step<ReplayState> {
    (st: ReplayState, line: Line) => ReplayNext(metas, st, line)
  }

  class SplitSectionReplay {
    const metas: seq<SectionMeta>
    var sections: seq<seq<Line>>
    var hint: nat
    var lineNum: nat

    constructor (metas: seq<SectionMeta>)
      ensures this.metas == metas && Abs() == Fresh(metas)
    {
      this.metas := metas;
      sections, hint, lineNum := seq(|metas|, i => []), 0, 0;
    }

    ghost function Abs(): ReplayState
      reads this
    {
      ReplayState(sections, hint, lineNum)
    }

    method Advance()
      modifies this`hint
      ensures hint == AdvanceHint(metas, old(hint), lineNum)
    {
      while hint < |metas| && lineNum > metas[hint].endLine
        invariant AdvanceHint(metas, hint, lineNum) == AdvanceHint(metas, old(hint), lineNum)
        decreases |metas| - hint
      {
        hint := hint + 1;
      }
    }

    method OnLine(line: Line) returns (complete: bool)
      requires |sections| == |metas|
      modifies this
      ensures old(ReplayLine(metas)(Abs(), line)) == if complete then Halt(Abs()) else Continue(Abs())
      ensures |sections| == |metas|
    {
      lineNum := lineNum + 1;
      Advance();
      if hint >= |metas| {
        return true;
      }
      if lineNum < metas[hint].startLine {
        return false;
      }
      sections := sections[hint := sections[hint] + [line]];
      complete := hint == |metas| - 1 && lineNum == metas[hint].endLine;
    }
  }

  function Fresh(metas: seq<SectionMeta>): ReplayState {
    ReplayState(seq(|metas|, i => []), 0, 0)
  }

  /** The lines of a window, as far as there are lines. */
  function Window(lines: seq<Line>, m: SectionMeta): seq<Line> {
    var end := if m.endLine <= |lines| then m.endLine else |lines|;
    if 1 <= m.startLine <= end then lines[m.startLine - 1..end] else []
  }

  /** The lines from startLine up to endLine, where there are that many. */
  lemma WindowTakesLines(lines: seq<Line>, m: SectionMeta)
    ensures 1 <= m.startLine <= m.endLine <= |lines| ==> Window(lines, m) == lines[m.startLine - 1..m.endLine]
    ensures 1 <= m.startLine <= |lines| < m.endLine ==> Window(lines, m) == lines[m.startLine - 1..]
    ensures m.startLine > |lines| ==> Window(lines, m) == []
  {
  }

  ghost predicate Replayed(metas: seq<SectionMeta>, st: ReplayState, done: seq<Line>) {
    && st.lineNum == |done| && |st.sections| == |metas| && st.hint <= |metas|
    && (forall i :: 0 <= i < st.hint ==> metas[i].endLine < |done|)
    && (st.hint < |metas| ==> |done| <= metas[st.hint].endLine)
    && Filled(metas, st.sections, done)
  }

  /** Each section holds the lines of its window that have come by. */
  ghost predicate Filled(metas: seq<SectionMeta>, sections: seq<seq<Line>>, done: seq<Line>) {
    |sections| == |metas| && forall i :: 0 <= i < |metas| ==> sections[i] == Window(done, metas[i])
  }

  lemma HintFindsWindow(metas: seq<SectionMeta>, hint: nat, lineNum: nat)
    requires Ordered(metas) && hint <= |metas| && lineNum > 0
    requires (forall i :: 0 <= i < hint ==> metas[i].endLine < lineNum)
    ensures var h := AdvanceHint(metas, hint, lineNum);
      && h <= |metas| && (forall i :: 0 <= i < h ==> metas[i].endLine < lineNum)
      && (h < |metas| ==> lineNum <= metas[h].endLine)
    decreases |metas| - hint
  {
  }

  /** A line outside a window leaves the window's lines as they are; the next line inside it is appended. */
  lemma WindowNext(done: seq<Line>, line: Line, m: SectionMeta)
    requires 1 <= m.startLine <= m.endLine
    ensures Window(done + [line], m) ==
            if m.startLine <= |done| + 1 <= m.endLine then Window(done, m) + [line] else Window(done, m)
  {
    var all := done + [line];
    var n := |done|;
    if m.startLine <= n + 1 <= m.endLine {
      assert all[m.startLine - 1..n + 1] == all[m.startLine - 1..n] + [line];
      assert all[m.startLine - 1..n] == done[m.startLine - 1..n];
    } else if m.endLine <= n {
      assert all[m.startLine - 1..m.endLine] == done[m.startLine - 1..m.endLine];
    }
  }

  lemma {:induction false} EndsGrow(metas: seq<SectionMeta>, i: nat, j: nat)
    requires Ordered(metas) && i < j < |metas|
    ensures metas[i].endLine < metas[j].startLine
    decreases j
  {
    if i < j - 1 {
      EndsGrow(metas, i, j - 1);
    }
  }

  /** Every window is full and lies behind. */
  ghost predicate Complete(metas: seq<SectionMeta>, st: ReplayState, done: seq<Line>) {
    && Filled(metas, st.sections, done)
    && forall i :: 0 <= i < |metas| ==> metas[i].endLine <= |done|
  }

  /** No window before the hint, and none behind it, holds line n. */
  ghost predicate HintHolds(metas: seq<SectionMeta>, h: nat, n: nat) {
    && h <= |metas|
    && (forall i :: 0 <= i < h ==> metas[i].endLine < n)
    && (forall i :: h < i < |metas| ==> n < metas[i].startLine)
    && (h < |metas| ==> n <= metas[h].endLine)
  }

  lemma HintIsAlone(metas: seq<SectionMeta>, hint: nat, n: nat)
    requires Ordered(metas) && hint <= |metas| && n > 0
    requires forall i :: 0 <= i < hint ==> metas[i].endLine < n
    ensures HintHolds(metas, AdvanceHint(metas, hint, n), n)
  {
    HintFindsWindow(metas, hint, n);
    var h := AdvanceHint(metas, hint, n);
    forall i | h < i < |metas| ensures n < metas[i].startLine {
      EndsGrow(metas, h, i);
    }
  }

  lemma FilledBetween(metas: seq<SectionMeta>, sections: seq<seq<Line>>, done: seq<Line>, line: Line, h: nat)
    requires Ordered(metas) && Filled(metas, sections, done) && HintHolds(metas, h, |done| + 1)
    requires h < |metas| ==> |done| + 1 < metas[h].startLine
    ensures Filled(metas, sections, done + [line])
  {
    forall i | 0 <= i < |metas| ensures sections[i] == Window(done + [line], metas[i]) {
      WindowNext(done, line, metas[i]);
    }
  }

  lemma FilledInside(metas: seq<SectionMeta>, sections: seq<seq<Line>>, done: seq<Line>, line: Line, h: nat)
    requires Ordered(metas) && Filled(metas, sections, done) && HintHolds(metas, h, |done| + 1)
    requires h < |metas| && metas[h].startLine <= |done| + 1
    ensures Filled(metas, sections[h := sections[h] + [line]], done + [line])
  {
    forall i | 0 <= i < |metas| ensures sections[h := sections[h] + [line]][i] == Window(done + [line], metas[i]) {
      WindowNext(done, line, metas[i]);
    }
  }

  lemma ReplayStep(metas: seq<SectionMeta>, st: ReplayState, done: seq<Line>, line: Line)
    requires Ordered(metas) && Replayed(metas, st, done)
    ensures match ReplayNext(metas, st, line)
      case Continue(next) => Replayed(metas, next, done + [line])
      case Halt(next) => Complete(metas, next, done + [line])
  {
    HintIsAlone(metas, st.hint, |done| + 1);
    var h := AdvanceHint(metas, st.hint, |done| + 1);
    if h < |metas| && metas[h].startLine <= |done| + 1 {
      FilledInside(metas, st.sections, done, line, h);
    } else {
      FilledBetween(metas, st.sections, done, line, h);
    }
  }

  lemma {:induction false} ReplayFills(metas: seq<SectionMeta>, st: ReplayState, done: seq<Line>, rest: seq<Line>)
    requires Ordered(metas) && Replayed(metas, st, done)
    ensures var sections := Feed(ReplayLine(metas), st, rest).state.sections;
      |sections| == |metas| && forall i :: 0 <= i < |metas| ==> sections[i] == Window(done + rest, metas[i])
    decreases |rest|
  {
    if rest == [] {
      assert done + rest == done;
    } else {
      assert done + [rest[0]] + rest[1..] == done + rest;
      ReplayStep(metas, st, done, rest[0]);
      match ReplayLine(metas)(st, rest[0])
      case Continue(next) =>
        ReplayFills(metas, next, done + [rest[0]], rest[1..]);
      case Halt(next) =>
        forall i | 0 <= i < |metas| ensures next.sections[i] == Window(done + rest, metas[i]) {
          WindowIsSettled(done + [rest[0]], rest[1..], metas[i]);
        }
    }
  }

  lemma WindowIsSettled(done: seq<Line>, more: seq<Line>, m: SectionMeta)
    requires m.endLine <= |done|
    ensures Window(done + more, m) == Window(done, m)
  {
    if 1 <= m.startLine <= m.endLine {
      assert (done + more)[m.startLine - 1..m.endLine] == done[m.startLine - 1..m.endLine];
    }
  }

  /** Replaying any ordered windows over any lines puts each line into the one section whose window holds it and drops
      the others, although the replay stops at the end of the last window. */
  lemma ReplayIsExact(metas: seq<SectionMeta>, lines: seq<Line>)
    requires Ordered(metas)
    ensures var sections := Feed(ReplayLine(metas), Fresh(metas), lines).state.sections;
      |sections| == |metas| && forall i :: 0 <= i < |metas| ==> sections[i] == Window(lines, metas[i])
  {
    assert Replayed(metas, Fresh(metas), []);
    assert [] + lines == lines;
    ReplayFills(metas, Fresh(metas), [], lines);
  }

  lemma SectionsAreOrdered(job: SplitJob)
    ensures Ordered(SectionsOf(job, Groups(job, SpansOf(job.data))))
  {
    var spans := SpansOf(job.data);
    var sections := SectionsOf(job, Groups(job, spans));
    SpansChain(job.data);
    SectionsAreWindows(job, spans);
    forall i | 0 <= i < |sections|
      ensures 1 <= sections[i].startLine <= sections[i].endLine
      ensures i > 0 ==> sections[i - 1].endLine < sections[i].startLine
    {
      assert SectionAt(job, spans, sections, i);
    }
  }

  /** The sections that lines have been replayed into. */
  method ReplaySplitMetas(src: Source, metas: seq<SectionMeta>) returns (ok: bool, sections: seq<seq<Line>>)
    requires src.off == 0 && Ordered(metas)
    modifies src
    ensures ok ==> |sections| == |metas|
    ensures ok ==> forall i :: 0 <= i < |metas| ==> sections[i] == Window(ReadLines(src.data), metas[i])
    ensures !ok ==> src.Unsteady()
  {
    assert src.data[0..] == src.data;
    var br := new BufReader(src);
    var stream := new LineStream(br);
    var replay := new SplitSectionReplay(metas);
    ghost var lines := stream.Pending();
    ReplayIsExact(metas, lines);
    while true
      invariant br.Valid() && |replay.sections| == |metas| && replay.metas == metas && fresh(replay)
      invariant Feed(ReplayLine(metas), replay.Abs(), stream.Pending()) == Feed(ReplayLine(metas), Fresh(metas), lines)
      decreases |stream.Pending()|
    {
      var r := stream.Next();
      match r
      case ReadFault => return false, [];
      case NoMoreLines => return true, replay.sections;
      case GotLine(line) =>
        var complete := replay.OnLine(line);
        if complete {
          return true, replay.sections;
        }
    }
  }

  /** The library helper: scan without a cap, rewind, and replay the windows into lines. */
  method SplitIntoLines(src: Source, job: SplitJob)
    returns (ok: bool, error: Option<SplitError>, sections: seq<seq<Line>>, ghost metas: seq<SectionMeta>)
    requires src.data == job.data && |src.data| <= MAX_INT64 && job.maxFiles == 0
    modifies src
    ensures ok && error.Some? ==> SplitOutcome(job) == SplitFailed(error.value)
    ensures ok && error == None ==> SplitOutcome(job) == SplitDone(metas, Delimiters(job, SpansOf(job.data)))
    ensures ok && error == None ==> |sections| == |metas|
    ensures ok && error == None ==>
      forall i :: 0 <= i < |metas| ==> sections[i] == Window(ReadLines(job.data), metas[i])
    ensures !ok ==> src.Unsteady()
  {
    error, sections, metas := None, [], [];
    var result;
    ok, result := ScanSplitSectionsMeta(src, job);
    if !ok {
      return;
    }
    if result.SplitFailed? {
      error := Some(result.error);
      return;
    }
    metas := result.sections;
    if |result.sections| == 0 {
      return;
    }
    ok := src.SeekTo(0);
    if !ok {
      return;
    }
    SectionsAreOrdered(job);
    ok, sections := ReplaySplitMetas(src, result.sections);
  }

  /** Without adjacent CRs each helper section serializes to the byte span planned for it. */
  lemma HelperSectionsMatchByteSpans(job: SplitJob)
    requires NoAdjacentCR(job.data)
    ensures forall m :: m in SectionsOf(job, Groups(job, SpansOf(job.data))) ==>
      Serialize(Window(ReadLines(job.data), m)) == Slice(job.data, m.byteStart, m.byteEnd)
  {
    WindowIsByteSpan(job);
    ReadersAgreeIffNoAdjacentCR(job.data);
    forall m | m in SectionsOf(job, Groups(job, SpansOf(job.data)))
      ensures Serialize(Window(ReadLines(job.data), m)) == Slice(job.data, m.byteStart, m.byteEnd)
    {
      assert SpansItsWindow(job, m, SpanLines(job.data));
    }
  }
}
