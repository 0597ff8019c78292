/** The streaming transform: one byte at a time, never holding a whole line, in a writing and a counting mode. */
module TransformStream {
  import opened Bytes
  import opened Streams
  import opened Lines
  import opened PlainTransform
  import opened Transform
  import opened PendingWhitespace

  /** The part of a line body that is certain to survive. */
  ghost function Kept(content: seq<byte>, opts: TransformOptions): seq<byte> {
    if opts.trimTrailing then TrimBlanks(content) else content
  }

  lemma TrimSnoc(content: seq<byte>, b: byte)
    ensures TrimBlanks(content + [b]) == if IsBlank(b) then TrimBlanks(content) else content + [b]
  {
    assert (content + [b])[..|content|] == content;
  }

  lemma MappedSnoc(lines: seq<Line>, last: Line, opts: TransformOptions)
    ensures Serialize(Mapped(lines + [last], opts)) ==
            Serialize(Mapped(lines, opts)) + TransformLine(last, opts).content + TransformLine(last, opts).terminator
  {
    assert Mapped(lines + [last], opts) == Mapped(lines, opts) + [TransformLine(last, opts)];
    SerializeSnoc(Mapped(lines, opts), TransformLine(last, opts));
  }

  /** Writing: the completed lines are out as the transform leaves them, then the certain part of the current body;
      the rest of the body is pending. */
  ghost predicate Written(data: seq<byte>, before: seq<byte>, done: seq<Line>, content: seq<byte>,
                          pending: seq<byte>, opts: TransformOptions) {
    && data == before + Serialize(Mapped(done, opts)) + Kept(content, opts)
    && pending == content[|Kept(content, opts)|..]
  }

  lemma BlankStaysPending(data: seq<byte>, before: seq<byte>, done: seq<Line>, content: seq<byte>,
                          pending: seq<byte>, opts: TransformOptions, chr: byte)
    requires opts.trimTrailing && IsBlank(chr) && Written(data, before, done, content, pending, opts)
    ensures Written(data, before, done, content + [chr], pending + [chr], opts)
  {
    TrimSnoc(content, chr);
    var k := |Kept(content, opts)|;
    assert content[k..] + [chr] == (content + [chr])[k..];
  }

  lemma OtherByteIsKept(data: seq<byte>, before: seq<byte>, done: seq<Line>, content: seq<byte>,
                        pending: seq<byte>, opts: TransformOptions, chr: byte)
    requires (opts.trimTrailing ==> !IsBlank(chr)) && Written(data, before, done, content, pending, opts)
    ensures Written(data + pending + [chr], before, done, content + [chr], [], opts)
  {
    TrimSnoc(content, chr);
    Regroup(before + Serialize(Mapped(done, opts)), Kept(content, opts), content, chr);
  }

  lemma Regroup(out: seq<byte>, kept: seq<byte>, content: seq<byte>, chr: byte)
    requires kept <= content
    ensures out + kept + content[|kept|..] + [chr] == out + (content + [chr])
  {
  }

  function TerminatorOut(opts: TransformOptions, srcTerm: seq<byte>, eof: bool): seq<byte> {
    if eof then (if opts.finalNewline && srcTerm == [] then DefaultFinalTerminator(opts) else [])
    else if opts.lineEndings.Some? && srcTerm != [] then TerminatorForTarget(opts.lineEndings.value)
    else srcTerm
  }

  lemma LastLineIsWritten(data: seq<byte>, before: seq<byte>, done: seq<Line>, content: seq<byte>,
                          pending: seq<byte>, opts: TransformOptions)
    requires Written(data, before, done, content, pending, opts)
    ensures var all := done + [Line(content, [])];
      && data + TerminatorOut(opts, [], true) == before + Serialize(Transformed(all, opts))
      && NeedsFinalNewline(all, opts) == opts.finalNewline
  {
    var all := done + [Line(content, [])];
    MappedSnoc(done, Line(content, []), opts);
    FinalNewlineComesLast(all, opts);
    BehindKept(before, Serialize(Mapped(done, opts)), Kept(content, opts), TerminatorOut(opts, [], true));
  }

  lemma BehindKept(before: seq<byte>, lines: seq<byte>, kept: seq<byte>, end: seq<byte>)
    ensures before + lines + kept + end == before + (lines + kept + [] + end)
  {
  }

  /** Nothing is held back and the last line is terminated: what is out is the whole result. */
  lemma NothingDue(data: seq<byte>, before: seq<byte>, done: seq<Line>, opts: TransformOptions)
    requires Written(data, before, done, [], [], opts) && (done != [] ==> done[|done| - 1].terminator != [])
    ensures data == before + Serialize(Transformed(done, opts)) && !NeedsFinalNewline(done, opts)
  {
    FinalNewlineComesLast(done, opts);
    BehindKept(before, Serialize(Mapped(done, opts)), [], []);
  }

  lemma LineIsWritten(data: seq<byte>, before: seq<byte>, done: seq<Line>, line: Line,
                      pending: seq<byte>, opts: TransformOptions)
    requires Written(data, before, done, line.content, pending, opts) && line.terminator != []
    ensures Written(data + TerminatorOut(opts, line.terminator, false), before, done + [line], [], [], opts)
  {
    MappedSnoc(done, line, opts);
    var out, term := Serialize(Mapped(done, opts)), TerminatorOut(opts, line.terminator, false);
    assert TransformLine(line, opts) == Line(Kept(line.content, opts), term);
    assert before + out + Kept(line.content, opts) + term == before + (out + Kept(line.content, opts) + term);
  }

  /** The two counters kept line by line. */
  ghost predicate Counted(endingsChanged: nat, trailingTrimmed: nat, done: seq<Line>, opts: TransformOptions) {
    && endingsChanged == (if opts.lineEndings == None then 0
                          else Count(done, Misses(TerminatorForTarget(opts.lineEndings.value))))
    && trailingTrimmed == (if opts.trimTrailing then Count(done, HasTrailingBlanks()) else 0)
  }

  lemma LineIsCounted(endingsChanged: nat, trailingTrimmed: nat, done: seq<Line>, line: Line, opts: TransformOptions)
    requires Counted(endingsChanged, trailingTrimmed, done, opts)
    ensures Counted(
      endingsChanged + (if opts.lineEndings.Some? && line.terminator != [] &&
                        line.terminator != TerminatorForTarget(opts.lineEndings.value) then 1 else 0),
      trailingTrimmed + (if opts.trimTrailing && TrimBlanks(line.content) != line.content then 1 else 0),
      done + [line], opts)
  {
    if opts.lineEndings.Some? {
      CountSnoc(done, line, Misses(TerminatorForTarget(opts.lineEndings.value)));
    }
    CountSnoc(done, line, HasTrailingBlanks());
  }

  /** The line that a CR ends, and what the next line starts with, by the byte read behind the CR. */
  function LineAtCR(content: seq<byte>, next: ByteRead): Line {
    Line(content, if next == Got(LF) then CRLF_TERM else CR_TERM)
  }

  function ContentBehindCR(next: ByteRead): seq<byte> {
    if next.Got? && next.b != LF then [next.b] else []
  }

  function BytesOf(next: ByteRead): seq<byte> {
    if next.Got? then [next.b] else []
  }

  /** What the reader makes of a CR, by what stands behind it. */
  lemma ReadBehindCR(done: seq<Line>, content: seq<byte>, next: ByteRead, behind: seq<byte>)
    requires !next.Fault? && (next.End? ==> behind == [])
    ensures done + ReadLinesWith([CR] + (BytesOf(next) + behind), content) ==
            done + [LineAtCR(content, next)] + ReadLinesWith(behind, ContentBehindCR(next))
  {
    var s := [CR] + (BytesOf(next) + behind);
    if next.Got? {
      assert s[1] == next.b && s[2..] == behind;
    }
    assert ReadLinesWith(s, content) == [LineAtCR(content, next)] + ReadLinesWith(behind, ContentBehindCR(next));
  }

  // ---------- room for the blanks held back ----------

  /** How many blanks the text ends in. */
  ghost function TrailingBlanks(text: seq<byte>): nat {
    if text == [] || !IsBlank(text[|text| - 1]) then 0 else 1 + TrailingBlanks(text[..|text| - 1])
  }

  ghost predicate BlanksAt(text: seq<byte>, i: nat, n: nat) {
    i + n <= |text| && forall k :: i <= k < i + n ==> IsBlank(text[k])
  }

  /** Somewhere n blanks stand in a row. */
  ghost predicate HasBlankRun(text: seq<byte>, n: nat) {
    exists i :: BlanksAt(text, i, n)
  }

  lemma {:induction false} TrailingRun(text: seq<byte>, n: nat)
    requires n <= |text|
    ensures TrailingBlanks(text) >= n <==> BlanksAt(text, |text| - n, n)
    decreases |text|
  {
    if n > 0 && IsBlank(text[|text| - 1]) {
      var front := text[..|text| - 1];
      TrailingRun(front, n - 1);
      assert forall k :: 0 <= k < |front| ==> front[k] == text[k];
    }
  }

  lemma {:induction false} TrailingWithin(text: seq<byte>)
    ensures TrailingBlanks(text) <= |text|
    decreases |text|
  {
    if text != [] {
      TrailingWithin(text[..|text| - 1]);
    }
  }

  lemma RunSnoc(text: seq<byte>, b: byte, n: nat)
    requires n > 0
    ensures HasBlankRun(text + [b], n) <==> HasBlankRun(text, n) || (IsBlank(b) && 1 + TrailingBlanks(text) >= n)
  {
    var all := text + [b];
    RunStays(text, [b], n);
    assert all[..|text|] == text;
    TrailingWithin(text);
    if n <= |all| {
      TrailingRun(all, n);
    }
    if HasBlankRun(all, n) {
      var i: nat :| BlanksAt(all, i, n);
      assert i + n <= |text| ==> BlanksAt(text, i, n);
    }
  }

  lemma RunStays(text: seq<byte>, more: seq<byte>, n: nat)
    ensures HasBlankRun(text, n) ==> HasBlankRun(text + more, n)
  {
    if HasBlankRun(text, n) {
      var i: nat :| BlanksAt(text, i, n);
      assert BlanksAt(text + more, i, n);
    }
  }

  lemma TerminatorAddsNoBlank(text: seq<byte>, terminator: seq<byte>, n: nat)
    requires IsTerminator(terminator) && n > 0
    ensures HasBlankRun(text + terminator, n) <==> HasBlankRun(text, n)
  {
    RunSnoc(text, terminator[0], n);
    if |terminator| == 2 {
      RunSnoc(text + [terminator[0]], terminator[1], n);
      assert text + terminator == text + [terminator[0]] + [terminator[1]];
    } else {
      assert terminator == [terminator[0]];
    }
  }

  /** Behind a line's end, the blanks the text ends in are those its last content ends in. */
  lemma {:induction false} TrailingOfContent(text: seq<byte>, content: seq<byte>)
    requires text == [] || !IsBlank(text[|text| - 1])
    ensures TrailingBlanks(text + content) == |content| - |TrimBlanks(content)|
    decreases |content|
  {
    if content == [] {
      assert text + content == text;
    } else {
      var n := |content| - 1;
      assert (text + content)[..|text| + n] == text + content[..n];
      TrailingOfContent(text, content[..n]);
    }
  }

  lemma {:induction false} EndsUnblank(done: seq<Line>)
    requires done != [] && IsTerminator(done[|done| - 1].terminator)
    ensures var text := Serialize(done); text != [] && !IsBlank(text[|text| - 1])
  {
    var n := |done| - 1;
    assert done == done[..n] + [done[n]];
    SerializeSnoc(done[..n], done[n]);
  }

  lemma BlankBehind(text: seq<byte>, content: seq<byte>, b: byte, n: nat)
    requires (text == [] || !IsBlank(text[|text| - 1])) && IsBlank(b) && n > 0
    ensures text + (content + [b]) == text + content + [b]
    ensures HasBlankRun(text + content + [b], n) <==>
            HasBlankRun(text + content, n) || 1 + |content| - |TrimBlanks(content)| >= n
  {
    TrailingOfContent(text, content);
    RunSnoc(text + content, b, n);
  }

  /** Blanks to be held back that find neither room in the buffer nor scratch storage. */
  ghost predicate OutOfRoom(text: seq<byte>, opts: TransformOptions, spill: MemSpillBacking?, limit: nat) {
    opts.trimTrailing && spill == null && HasBlankRun(text, limit + 1)
  }

  class Stream {
    const br: BufReader
    const bw: Sink?
    const opts: TransformOptions
    const want: seq<byte>
    const scan: LineEndingScanStats
    const pending: PendingQueue

    var endingsChanged: nat
    var trailingTrimmed: nat
    var finalNewlineAdded: bool
    var trimTrailingRun: nat
    var lineBodyBytes: nat

    /** The lines completed so far, the body of the current one, and what the writer held at the start. */
    ghost var done: seq<Line>
    ghost var content: seq<byte>
    ghost const before: seq<byte>

    constructor (br: BufReader, bw: Sink?, opts: TransformOptions, pending: PendingQueue)
      requires br.Valid() && pending.Valid() && pending.Bytes() == []
      ensures this.br == br && this.bw == bw && this.opts == opts && this.pending == pending
      ensures fresh(scan) && Valid() && done == [] && content == [] && !finalNewlineAdded
      ensures before == if bw == null then [] else bw.data
    {
      this.br, this.bw, this.opts, this.pending := br, bw, opts, pending;
      this.want := if opts.lineEndings.Some? then TerminatorForTarget(opts.lineEndings.value) else [];
      this.scan := new LineEndingScanStats();
      this.endingsChanged, this.trailingTrimmed, this.finalNewlineAdded := 0, 0, false;
      this.trimTrailingRun, this.lineBodyBytes := 0, 0;
      this.done, this.content := [], [];
      this.before := if bw == null then [] else bw.data;
      new;
      assert Serialize(Mapped([], opts)) == [];
    }

    /** The scratch file is the one from before or a new one. */
    twostate predicate SpillIsOurs()
      reads this, pending
    {
      pending.spill == null || pending.spill == old(pending.spill) || fresh(pending.spill)
    }

    ghost predicate CountersMatch()
      reads this, scan
    {
      && (opts.lineEndings.Some? ==>
          want == TerminatorForTarget(opts.lineEndings.value) && scan.Counts(done, want))
      && Counted(endingsChanged, trailingTrimmed, done, opts)
    }

    ghost predicate OutputMatches()
      reads this, bw, pending, pending.spill
    {
      if bw == null then
        pending.Bytes() == [] && (opts.trimTrailing ==> trimTrailingRun == |content| - |TrimBlanks(content)|)
      else
        Written(bw.data, before, done, content, pending.Bytes(), opts)
    }

    ghost predicate Valid()
      reads this, scan, bw, pending, pending.spill
    {
      && pending.Valid() && lineBodyBytes == |content| && CountersMatch() && OutputMatches()
      && !finalNewlineAdded && (done != [] ==> IsTerminator(done[|done| - 1].terminator)) && Fits(Seen())
    }

    /** The bytes handled so far. */
    ghost function Seen(): seq<byte>
      reads this
    {
      Serialize(done) + content
    }

    /** The blanks of a text that have to be held back find room. */
    ghost predicate Fits(text: seq<byte>) {
      bw != null ==> !OutOfRoom(text, opts, pending.backing, pending.limit)
    }

    /** The lines completed so far and those that rest still holds. */
    ghost function Ahead(rest: seq<byte>): seq<Line>
      reads this
    {
      done + ReadLinesWith(rest, content)
    }

    /** The end of the source was handled: every line is out, with the final newline where one was due. */
    ghost predicate Flushed()
      reads this, scan, bw
    {
      && CountersMatch() && finalNewlineAdded == NeedsFinalNewline(done, opts)
      && (bw != null ==> bw.data == before + Serialize(Transformed(done, opts)))
    }

    /** A write has failed or come up short. */
    ghost predicate WriteTrouble()
      reads bw
    {
      bw != null && (bw.faulted || bw.cut)
    }

    method EmitContentByte(chr: byte) returns (ok: bool)
      requires Valid()
      modifies this, scan, bw, pending, pending.spill, pending.backing
      ensures !ok ==> WriteTrouble() || !Fits(old(Seen()) + [chr])
      ensures ok ==> Valid() && content == old(content) + [chr] && done == old(done)
      ensures finalNewlineAdded == old(finalNewlineAdded) && SpillIsOurs()
    {
      if !opts.trimTrailing {
        ok := EmitUntrimmedContentByte(chr);
      } else if bw == null {
        ObserveTrimmedContentByte(chr);
        ok := true;
      } else if IsBlank(chr) {
        ok := PushBlank(chr);
      } else {
        ok := EmitAfterPending(chr);
      }
    }

    /** One more blank fits exactly when the buffer has room for it or there is scratch storage. */
    lemma BlankFits(chr: byte)
      requires Valid() && opts.trimTrailing && bw != null && IsBlank(chr)
      ensures Serialize(done) + (content + [chr]) == Seen() + [chr]
      ensures Fits(Seen() + [chr]) <==> pending.backing != null || |pending.buf| < pending.limit
    {
      if done != [] {
        EndsUnblank(done);
      }
      BlankBehind(Serialize(done), content, chr, pending.limit + 1);
    }

    lemma OtherByteFits(chr: byte)
      requires Fits(Seen()) && (opts.trimTrailing ==> !IsBlank(chr))
      ensures Serialize(done) + (content + [chr]) == Seen() + [chr] && Fits(Seen() + [chr])
    {
      RunSnoc(Seen(), chr, pending.limit + 1);
    }

    lemma TerminatorFits(srcTerm: seq<byte>)
      requires Fits(Seen()) && IsTerminator(srcTerm)
      ensures Serialize(done + [Line(content, srcTerm)]) == Seen() + srcTerm && Fits(Seen() + srcTerm)
    {
      SerializeSnoc(done, Line(content, srcTerm));
      TerminatorAddsNoBlank(Seen(), srcTerm, pending.limit + 1);
    }

    /** A byte that is out or held back, where it belongs, joins the body of the current line. */
    method TakeByte(chr: byte)
      requires pending.Valid() && lineBodyBytes == |content| && CountersMatch() && !finalNewlineAdded
      requires done != [] ==> IsTerminator(done[|done| - 1].terminator)
      requires bw != null && Written(bw.data, before, done, content + [chr], pending.Bytes(), opts)
      requires Fits(Serialize(done) + (content + [chr]))
      modifies this`lineBodyBytes, this`content
      ensures Valid() && content == old(content) + [chr]
    {
      lineBodyBytes := lineBodyBytes + 1;
      content := content + [chr];
    }

    method PushBlank(chr: byte) returns (ok: bool)
      requires Valid() && opts.trimTrailing && bw != null && IsBlank(chr)
      modifies this, pending, pending.spill, pending.backing
      ensures !ok ==> !Fits(old(Seen()) + [chr])
      ensures ok ==> Valid() && content == old(content) + [chr] && done == old(done)
      ensures finalNewlineAdded == old(finalNewlineAdded) && SpillIsOurs()
    {
      BlankFits(chr);
      BlankStaysPending(bw.data, before, done, content, pending.Bytes(), opts, chr);
      ok := pending.Push(chr);
      if ok {
        TakeByte(chr);
      }
    }

    method EmitAfterPending(chr: byte) returns (ok: bool)
      requires Valid() && opts.trimTrailing && bw != null && !IsBlank(chr)
      modifies this, bw, pending, pending.spill, pending.backing
      ensures !ok ==> WriteTrouble()
      ensures ok ==> Valid() && content == old(content) + [chr] && done == old(done)
      ensures finalNewlineAdded == old(finalNewlineAdded) && SpillIsOurs()
    {
      OtherByteIsKept(bw.data, before, done, content, pending.Bytes(), opts, chr);
      OtherByteFits(chr);
      ok := pending.FlushTo(bw);
      if !ok {
        return;
      }
      ok := WriteOnce(bw, [chr]);
      if ok {
        TakeByte(chr);
      }
    }

    method EmitUntrimmedContentByte(chr: byte) returns (ok: bool)
      requires Valid() && !opts.trimTrailing
      modifies this, bw
      ensures !ok ==> WriteTrouble()
      ensures ok ==> Valid() && content == old(content) + [chr] && done == old(done)
      ensures finalNewlineAdded == old(finalNewlineAdded)
    {
      lineBodyBytes := lineBodyBytes + 1;
      content := content + [chr];
      if bw == null {
        return true;
      }
      OtherByteIsKept(bw.data, before, done, old(content), pending.Bytes(), opts, chr);
      assert pending.Bytes() == [];
      ok := WriteOnce(bw, [chr]);
    }

    method ObserveTrimmedContentByte(chr: byte)
      requires Valid() && opts.trimTrailing && bw == null
      modifies this
      ensures Valid() && content == old(content) + [chr] && done == old(done)
      ensures finalNewlineAdded == old(finalNewlineAdded)
    {
      TrimSnoc(content, chr);
      if IsBlank(chr) {
        trimTrailingRun := trimTrailingRun + 1;
      } else {
        trimTrailingRun := 0;
      }
      lineBodyBytes := lineBodyBytes + 1;
      content := content + [chr];
    }

    method CompleteTrimTrailing()
      requires Valid()
      modifies this`trailingTrimmed, this`trimTrailingRun, pending
      ensures trailingTrimmed == old(trailingTrimmed) +
                if opts.trimTrailing && TrimBlanks(content) != content then 1 else 0
      ensures pending.Valid() && pending.Bytes() == []
      ensures pending.spill == null || pending.spill == old(pending.spill)
      ensures bw == null && opts.trimTrailing ==> trimTrailingRun == 0
    {
      if !opts.trimTrailing {
        return;
      }
      if bw != null {
        if pending.NonEmpty() {
          trailingTrimmed := trailingTrimmed + 1;
          pending.Discard();
        }
      } else if trimTrailingRun > 0 {
        trailingTrimmed := trailingTrimmed + 1;
        trimTrailingRun := 0;
      }
    }

    method ObserveLineEnding(srcTerm: seq<byte>)
      requires opts.lineEndings.Some? ==> want == TerminatorForTarget(opts.lineEndings.value) && scan.Counts(done, want)
      modifies this`endingsChanged, scan
      ensures opts.lineEndings.Some? ==> scan.Counts(done + [Line(content, srcTerm)], want)
      ensures endingsChanged == old(endingsChanged) +
                if opts.lineEndings.Some? && srcTerm != [] && srcTerm != want then 1 else 0
    {
      if opts.lineEndings == None {
        return;
      }
      scan.Observe(done, Line(content, srcTerm), srcTerm, want);
      if |srcTerm| > 0 && srcTerm != want {
        endingsChanged := endingsChanged + 1;
      }
    }

    method WriteLineTerminatorOut(srcTerm: seq<byte>, eof: bool) returns (ok: bool)
      requires opts.lineEndings.Some? ==> want == TerminatorForTarget(opts.lineEndings.value)
      modifies this`finalNewlineAdded, bw
      ensures !ok ==> WriteTrouble()
      ensures eof ==> finalNewlineAdded == (old(finalNewlineAdded) || (opts.finalNewline && srcTerm == []))
      ensures !eof ==> finalNewlineAdded == old(finalNewlineAdded)
      ensures ok && bw != null ==> bw.data == old(bw.data) + TerminatorOut(opts, srcTerm, eof)
    {
      ok := true;
      if eof {
        if !opts.finalNewline || |srcTerm| != 0 {
          return;
        }
        finalNewlineAdded := true;
        if bw != null {
          ok := WriteOnce(bw, DefaultFinalTerminator(opts));
        }
      } else if bw != null && |srcTerm| != 0 {
        ok := WriteOnce(bw, if opts.lineEndings.Some? then want else srcTerm);
      }
    }

    /** Takes the current line, ended by srcTerm, into the counters. */
    method CountLine(srcTerm: seq<byte>)
      requires Valid()
      modifies this`trailingTrimmed, this`trimTrailingRun, this`endingsChanged, scan, pending
      ensures var all := done + [Line(content, srcTerm)];
        && Counted(endingsChanged, trailingTrimmed, all, opts)
        && (opts.lineEndings.Some? ==> scan.Counts(all, want))
      ensures pending.Valid() && pending.Bytes() == []
      ensures pending.spill == null || pending.spill == old(pending.spill)
      ensures bw == null && opts.trimTrailing ==> trimTrailingRun == 0
    {
      LineIsCounted(endingsChanged, trailingTrimmed, done, Line(content, srcTerm), opts);
      CompleteTrimTrailing();
      ObserveLineEnding(srcTerm);
    }

    /** Starts on the next line, once the current one is written and counted. */
    method BeginNextLine(ghost line: Line, ghost seen: seq<byte>)
      requires pending.Valid() && pending.Bytes() == [] && !finalNewlineAdded && IsTerminator(line.terminator)
      requires Serialize(done + [line]) == seen && Fits(seen)
      requires opts.lineEndings.Some? ==>
        want == TerminatorForTarget(opts.lineEndings.value) && scan.Counts(done + [line], want)
      requires Counted(endingsChanged, trailingTrimmed, done + [line], opts)
      requires if bw == null then opts.trimTrailing ==> trimTrailingRun == 0
               else Written(bw.data, before, done + [line], [], [], opts)
      modifies this`lineBodyBytes, this`content, this`done
      ensures Valid() && content == [] && done == old(done) + [line] && Seen() == seen
    {
      lineBodyBytes := 0;
      content := [];
      done := done + [line];
      assert Seen() == Serialize(done);
    }

    /** Writes the terminator of a line whose body is out, but for the blanks held back at its end. */
    method WriteTerminatorOf(srcTerm: seq<byte>, ghost held: seq<byte>) returns (ok: bool)
      requires opts.lineEndings.Some? ==> want == TerminatorForTarget(opts.lineEndings.value)
      requires srcTerm != [] && (bw != null ==> Written(bw.data, before, done, content, held, opts))
      modifies this`finalNewlineAdded, bw
      ensures finalNewlineAdded == old(finalNewlineAdded)
      ensures ok && bw != null ==> Written(bw.data, before, done + [Line(content, srcTerm)], [], [], opts)
      ensures !ok ==> WriteTrouble()
    {
      if bw != null {
        LineIsWritten(bw.data, before, done, Line(content, srcTerm), held, opts);
      }
      ok := WriteLineTerminatorOut(srcTerm, false);
    }

    /** A line that ended in a terminator. */
    method CompleteTerminated(srcTerm: seq<byte>) returns (ok: bool)
      requires Valid() && IsTerminator(srcTerm)
      modifies this, scan, pending, bw
      ensures ok ==> done == old(done) + [Line(old(content), srcTerm)] && Seen() == old(Seen()) + srcTerm
      ensures ok ==> Valid() && content == [] && SpillIsOurs()
      ensures !ok ==> WriteTrouble()
    {
      ghost var held, seen := pending.Bytes(), Seen() + srcTerm;
      TerminatorFits(srcTerm);
      CountLine(srcTerm);
      ok := WriteTerminatorOf(srcTerm, held);
      if ok {
        BeginNextLine(Line(content, srcTerm), seen);
      }
    }

    /** Ends the run, once the last line is written and counted. */
    method EndLast(ghost line: Line)
      requires opts.lineEndings.Some? ==>
        want == TerminatorForTarget(opts.lineEndings.value) && scan.Counts(done + [line], want)
      requires Counted(endingsChanged, trailingTrimmed, done + [line], opts)
      requires finalNewlineAdded == NeedsFinalNewline(done + [line], opts)
      requires bw != null ==> bw.data == before + Serialize(Transformed(done + [line], opts))
      modifies this`lineBodyBytes, this`content, this`done
      ensures Flushed() && done == old(done) + [line]
    {
      lineBodyBytes := 0;
      content := [];
      done := done + [line];
    }

    /** An incomplete last line. */
    method CompleteLast() returns (ok: bool)
      requires Valid()
      modifies this, scan, pending, bw
      ensures ok ==> Flushed() && done == old(done) + [Line(old(content), [])]
      ensures !ok ==> WriteTrouble()
    {
      ghost var line := Line(content, []);
      if bw != null {
        LastLineIsWritten(bw.data, before, done, content, pending.Bytes(), opts);
      }
      CountLine([]);
      ok := WriteLineTerminatorOut([], true);
      if ok {
        EndLast(line);
      }
    }

    method HandleCR(ghost text: seq<byte>) returns (ok: bool)
      requires Valid() && br.Valid() && text == Seen() + ([CR] + br.Remaining())
      modifies this, scan, bw, pending, pending.spill, pending.backing, br, br.src
      ensures br.Valid() && |br.Remaining()| <= old(|br.Remaining()|)
      ensures !ok ==> br.src.Unsteady() || WriteTrouble() || !Fits(text)
      ensures ok ==> Valid() && SpillIsOurs()
      ensures ok ==> Ahead(br.Remaining()) == old(Ahead([CR] + br.Remaining()))
    {
      ghost var rest := br.Remaining();
      var next := br.ReadByte();
      if next.Fault? {
        return false;
      }
      ghost var behind := br.Remaining();
      assert rest == BytesOf(next) + behind;
      ok := CompleteAtCR(next, behind, text);
    }

    lemma StaysFull(text: seq<byte>, more: seq<byte>)
      ensures !Fits(text) ==> !Fits(text + more)
    {
      RunStays(text, more, pending.limit + 1);
    }

    lemma FullAtCR(seen: seq<byte>, next: ByteRead, behind: seq<byte>)
      ensures !Fits(seen + [CR] + BytesOf(next)) ==> !Fits(seen + ([CR] + (BytesOf(next) + behind)))
    {
      StaysFull(seen + [CR] + BytesOf(next), behind);
      assert seen + [CR] + BytesOf(next) + behind == seen + ([CR] + (BytesOf(next) + behind));
    }

    method CompleteAtCR(next: ByteRead, ghost behind: seq<byte>, ghost text: seq<byte>) returns (ok: bool)
      requires Valid() && !next.Fault? && (next.End? ==> behind == [])
      requires text == Seen() + ([CR] + (BytesOf(next) + behind))
      modifies this, scan, bw, pending, pending.spill, pending.backing
      ensures ok ==> Valid() && SpillIsOurs()
      ensures ok ==> Ahead(behind) == old(Ahead([CR] + (BytesOf(next) + behind)))
      ensures !ok ==> WriteTrouble() || !Fits(text)
    {
      ReadBehindCR(done, content, next, behind);
      FullAtCR(Seen(), next, behind);
      ok := StartBehindCR(next);
    }

    /** Ends the line at a CR, by what was read behind it: LF belongs to the terminator, and any other byte, even
        another CR, starts the next line's body. */
    method StartBehindCR(next: ByteRead) returns (ok: bool)
      requires Valid() && !next.Fault?
      modifies this, scan, bw, pending, pending.spill, pending.backing
      ensures ok ==> Valid() && SpillIsOurs()
      ensures ok ==> done == old(done) + [LineAtCR(old(content), next)] && content == ContentBehindCR(next)
      ensures !ok ==> WriteTrouble() || !Fits(old(Seen()) + [CR] + BytesOf(next))
    {
      ok := CompleteTerminated(if next == Got(LF) then CRLF_TERM else CR_TERM);
      if ok && next.Got? && next.b != LF {
        ok := EmitContentByte(next.b);
      }
    }

    method CompleteAtLF(ghost behind: seq<byte>) returns (ok: bool)
      requires Valid()
      modifies this, scan, pending, bw
      ensures ok ==> Valid() && SpillIsOurs() && Ahead(behind) == old(Ahead([LF] + behind))
      ensures !ok ==> WriteTrouble()
    {
      assert ([LF] + behind)[1..] == behind;
      ghost var line, rest := Line(content, LF_TERM), ReadLinesWith(behind, []);
      assert done + ([line] + rest) == done + [line] + rest;
      ok := CompleteTerminated(LF_TERM);
    }

    method EmitByteAhead(b: byte, ghost behind: seq<byte>, ghost text: seq<byte>) returns (ok: bool)
      requires Valid() && b != LF && b != CR && text == Seen() + ([b] + behind)
      modifies this, scan, bw, pending, pending.spill, pending.backing
      ensures ok ==> Valid() && SpillIsOurs() && Ahead(behind) == old(Ahead([b] + behind))
      ensures !ok ==> WriteTrouble() || !Fits(text)
    {
      assert ([b] + behind)[1..] == behind;
      StaysFull(Seen() + [b], behind);
      assert Seen() + [b] + behind == Seen() + ([b] + behind);
      ok := EmitContentByte(b);
    }

    method DispatchByte(b: byte, ghost text: seq<byte>) returns (ok: bool)
      requires Valid() && br.Valid() && text == Seen() + ([b] + br.Remaining())
      modifies this, scan, bw, pending, pending.spill, pending.backing, br, br.src
      ensures br.Valid() && |br.Remaining()| <= old(|br.Remaining()|)
      ensures !ok ==> br.src.Unsteady() || WriteTrouble() || !Fits(text)
      ensures ok ==> Valid() && SpillIsOurs()
      ensures ok ==> Ahead(br.Remaining()) == old(Ahead([b] + br.Remaining()))
    {
      if b == LF {
        ok := CompleteAtLF(br.Remaining());
      } else if b == CR {
        ok := HandleCR(text);
      } else {
        ok := EmitByteAhead(b, br.Remaining(), text);
      }
    }

    /** With an empty body every line is out, and no final newline is due. */
    lemma NothingLeft()
      requires Valid() && content == [] && pending.Bytes() == []
      ensures Flushed() && Ahead([]) == done
    {
      if bw != null {
        NothingDue(bw.data, before, done, opts);
      }
    }

    method FlushAtEOF() returns (ok: bool)
      requires Valid()
      modifies this, scan, pending, bw
      ensures !ok ==> WriteTrouble()
      ensures ok ==> Flushed() && done == old(Ahead([]))
    {
      if lineBodyBytes == 0 {
        if bw == null || !pending.NonEmpty() {
          NothingLeft();
          return true;
        }
      }
      assert Ahead([]) == done + if content == [] then [] else [Line(content, [])];
      ok := CompleteLast();
    }

    lemma SeenAhead(rest: seq<byte>)
      ensures Serialize(Ahead(rest)) == Seen() + rest
    {
      SerializeAppend(done, ReadLinesWith(rest, content));
      ReadLinesWithKeepsBytes(rest, content);
    }

    /** Takes one byte, or handles the end of the source. text is what was and is to be handled. */
    method HandleNext(ghost text: seq<byte>) returns (more: bool, ok: bool)
      requires Valid() && br.Valid() && text == Seen() + br.Remaining()
      modifies this, scan, bw, pending, pending.spill, pending.backing, br, br.src
      ensures br.Valid() && (more ==> ok)
      ensures more ==> Valid() && SpillIsOurs() && Ahead(br.Remaining()) == old(Ahead(br.Remaining()))
      ensures more ==> |br.Remaining()| < old(|br.Remaining()|)
      ensures ok && !more ==> Flushed() && done == old(Ahead(br.Remaining())) && br.Remaining() == [] && Fits(text)
      ensures !ok ==> br.src.Unsteady() || WriteTrouble() || !Fits(text)
    {
      more := false;
      var r := br.ReadByte();
      match r
      case Fault => ok := false;
      case End =>
        assert text == Seen();
        ok := FlushAtEOF();
      case Got(b) =>
        ok := DispatchByte(b, text);
        more := ok;
    }

    method Run(ghost text: seq<byte>) returns (ok: bool)
      requires Valid() && br.Valid() && text == Seen() + br.Remaining()
      modifies this, scan, bw, pending, pending.spill, pending.backing, br, br.src
      ensures ok ==> Flushed() && done == old(Ahead(br.Remaining()))
      ensures ok ==> br.Valid() && br.Remaining() == [] && Fits(text)
      ensures !ok ==> br.src.Unsteady() || WriteTrouble() || !Fits(text)
    {
      SeenAhead(br.Remaining());
      var more;
      more, ok := true, true;
      while more
        invariant br.Valid() && (more ==> ok && Valid() && SpillIsOurs())
        invariant more ==> Ahead(br.Remaining()) == old(Ahead(br.Remaining()))
        invariant ok && !more ==> Flushed() && done == old(Ahead(br.Remaining())) && br.Remaining() == [] && Fits(text)
        invariant !ok ==> br.src.Unsteady() || WriteTrouble() || !Fits(text)
        decreases more, |br.Remaining()|
      {
        SeenAhead(br.Remaining());
        more, ok := HandleNext(text);
      }
    }

    /** The result as reported: the per-kind counts are copied only when line endings were asked for. */
    method Report() returns (stats: Stats)
      requires Flushed()
      ensures stats == StatsOf(done, opts)
    {
      stats := Stats(endingsChanged, 0, 0, 0, 0, 0, 0, trailingTrimmed, finalNewlineAdded);
      if opts.lineEndings.Some? {
        stats := stats.(lfFound := scan.lfFound, lfConverted := scan.lfConverted,
                        crFound := scan.crFound, crConverted := scan.crConverted,
                        crlfFound := scan.crlfFound, crlfConverted := scan.crlfConverted);
      }
    }

    /** A whole run, from the start of a text, as its bytes tell it. */
    method RunAndReport(ghost text: seq<byte>) returns (ok: bool, stats: Stats)
      requires Valid() && br.Valid() && done == [] && content == [] && text == br.Remaining()
      modifies this, scan, bw, pending, pending.spill, pending.backing, br, br.src
      ensures ok ==> stats == StatsOf(ReadLines(text), opts) && br.Valid() && br.Remaining() == []
      ensures ok && bw != null ==> bw.data == before + TransformBytes(text, opts)
      ensures !ok ==> br.src.Unsteady() || WriteTrouble() || !Fits(text)
      ensures ok ==> Fits(text)
    {
      stats := Stats(0, 0, 0, 0, 0, 0, 0, 0, false);
      assert Ahead(text) == ReadLines(text);
      assert Seen() + text == text;
      ok := Run(text);
      if ok {
        stats := Report();
      }
    }
  }

  /** Streams src through the transform, writing to out or, when out is null, only counting. However the reads are
      chunked and however small the pending buffer, a successful run writes the bytes of the in-memory transform and
      reports its counters, in both modes. Without a fault it fails exactly when
      blanks to be held back run out of room. */
  method RunTransformStream(src: Source, opts: TransformOptions, out: Sink?, spill: MemSpillBacking?, maxPending: int)
    returns (ok: bool, stats: Stats)
    requires src.off <= |src.data|
    modifies src, out, spill
    ensures ok ==> stats == StatsOf(ReadLines(old(src.data[src.off..])), opts)
    ensures ok && out != null ==> out.data == old(out.data) + TransformBytes(old(src.data[src.off..]), opts)
    ensures ok && out != null ==>
      exists lines :: && GoOut(ReadLines(old(src.data[src.off..])), lines, opts)
                      && out.data == old(out.data) + Serialize(lines)
    ensures ok ==> src.off == |src.data|
    ensures var limit := if maxPending <= 0 then 65536 else maxPending;
      && (!ok ==> src.Unsteady() || (out != null && (out.faulted || out.cut)) ||
                  (out != null && OutOfRoom(old(src.data[src.off..]), opts, spill, limit)))
      && (ok && out != null ==> !OutOfRoom(old(src.data[src.off..]), opts, spill, limit))
  {
    var br := new BufReader(src);
    var pending := new PendingQueue(spill, maxPending);
    var ts := new Stream(br, out, opts, pending);
    ok, stats := ts.RunAndReport(br.Remaining());
    TransformInBytes(old(src.data[src.off..]), opts);
  }
}
