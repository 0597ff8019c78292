/** What the transform writes and reports, told by byte values alone: 9 and 32 are blanks, 10 is LF, 13 is CR. */
module PlainTransform {
  import opened Bytes
  import opened Lines
  import opened Transform
  import opened PlainLines

  /** The ending asked for: CRLF for target 1, CR for target 2, LF for any other and for none. */
  ghost function Ending(opts: TransformOptions): seq<byte> {
    if opts.lineEndings == Some(1) then [13, 10] else if opts.lineEndings == Some(2) then [13] else [10]
  }

  ghost predicate Blank(b: byte) {
    b == 9 || b == 32
  }

  /** kept is all of content but the blanks it ends in. */
  ghost predicate Trimmed(content: seq<byte>, kept: seq<byte>) {
    && kept <= content && (kept != [] ==> !Blank(kept[|kept| - 1]))
    && forall i :: |kept| <= i < |content| ==> Blank(content[i])
  }

  ghost predicate LineGoesOut(line: Line, out: Line, last: bool, opts: TransformOptions) {
    && (if opts.trimTrailing then Trimmed(line.content, out.content) else out.content == line.content)
    && (if line.terminator == [] then out.terminator == if last && opts.finalNewline then Ending(opts) else []
        else out.terminator == if opts.lineEndings == None then line.terminator else Ending(opts))
  }

  ghost predicate GoOut(lines: seq<Line>, out: seq<Line>, opts: TransformOptions) {
    && |out| == |lines|
    && forall i :: 0 <= i < |lines| ==> LineGoesOut(lines[i], out[i], i == |lines| - 1, opts)
  }

  lemma BlanksGo(content: seq<byte>)
    ensures Trimmed(content, TrimBlanks(content))
  {
    TrimBlanksIsLongest(content);
  }

  lemma {:induction false} TrimmedIsOne(content: seq<byte>, kept: seq<byte>)
    requires Trimmed(content, kept)
    ensures kept == TrimBlanks(content)
    decreases |content|
  {
    if kept != content {
      TrimmedIsOne(content[..|content| - 1], kept);
    }
  }

  lemma LineGoesOnce(line: Line, out: Line, other: Line, last: bool, opts: TransformOptions)
    requires LineGoesOut(line, out, last, opts) && LineGoesOut(line, other, last, opts)
    ensures out == other
  {
    if opts.trimTrailing {
      TrimmedIsOne(line.content, out.content);
      TrimmedIsOne(line.content, other.content);
    }
  }

  lemma LineGoesAt(lines: seq<Line>, i: nat, opts: TransformOptions)
    requires i < |lines|
    ensures LineGoesOut(lines[i], Transformed(lines, opts)[i], i == |lines| - 1, opts)
  {
    BlanksGo(lines[i].content);
  }

  /** Any list of lines goes out like this, and in no other way. */
  lemma LinesGoOut(lines: seq<Line>, out: seq<Line>, opts: TransformOptions)
    ensures GoOut(lines, out, opts) <==> out == Transformed(lines, opts)
  {
    forall i | 0 <= i < |lines|
      ensures LineGoesOut(lines[i], Transformed(lines, opts)[i], i == |lines| - 1, opts)
    {
      LineGoesAt(lines, i, opts);
    }
    if GoOut(lines, out, opts) {
      forall i | 0 <= i < |lines| ensures out[i] == Transformed(lines, opts)[i] {
        LineGoesOnce(lines[i], out[i], Transformed(lines, opts)[i], i == |lines| - 1, opts);
      }
    }
  }

  /** The bytes a source becomes. */
  lemma TransformInBytes(s: seq<byte>, opts: TransformOptions)
    ensures exists out :: GoOut(ReadLines(s), out, opts) && TransformBytes(s, opts) == Serialize(out)
  {
    LinesGoOut(ReadLines(s), Transformed(ReadLines(s), opts), opts);
  }

  // ---------- which line-ending bytes are left ----------

  ghost predicate InSome(lines: seq<Line>, b: byte) {
    exists i :: 0 <= i < |lines| && (b in lines[i].content || b in lines[i].terminator)
  }

  lemma InSomeNext(front: seq<Line>, last: Line, b: byte)
    ensures InSome(front + [last], b) <==> InSome(front, b) || b in last.content || b in last.terminator
  {
    var all := front + [last];
    assert all[|front|] == last && forall i :: 0 <= i < |front| ==> all[i] == front[i];
  }

  lemma {:induction false} ByteOfLines(lines: seq<Line>, b: byte)
    ensures b in Serialize(lines) <==> InSome(lines, b)
    decreases |lines|
  {
    if lines != [] {
      var n := |lines| - 1;
      assert lines == lines[..n] + [lines[n]];
      SerializeSnoc(lines[..n], lines[n]);
      ByteOfLines(lines[..n], b);
      InSomeNext(lines[..n], lines[n], b);
    }
  }

  ghost predicate AdjacentCRs(s: seq<byte>) {
    exists i :: 0 <= i < |s| - 1 && s[i] == 13 && s[i + 1] == 13
  }

  ghost predicate CRInContent(lines: seq<Line>) {
    exists i :: 0 <= i < |lines| && 13 in lines[i].content
  }

  lemma ContentsKeepCRs(s: seq<byte>, opts: TransformOptions)
    ensures CRInContent(ReadLines(s)) <==> AdjacentCRs(s)
    ensures CRInContent(Transformed(ReadLines(s), opts)) <==> AdjacentCRs(s)
  {
    var lines, out := ReadLines(s), Transformed(ReadLines(s), opts);
    PlainIffNoAdjacentCR(s, []);
    LinesGoOut(lines, out, opts);
    forall i | 0 <= i < |lines| ensures 13 in lines[i].content <==> 13 in out[i].content {
      assert LineGoesOut(lines[i], out[i], i == |lines| - 1, opts);
    }
  }

  lemma NoLFInContents(s: seq<byte>, opts: TransformOptions)
    ensures forall i :: 0 <= i < |Transformed(ReadLines(s), opts)| ==> 10 !in Transformed(ReadLines(s), opts)[i].content
  {
    var lines, out := ReadLines(s), Transformed(ReadLines(s), opts);
    ReadLinesInBytes(s);
    LinesGoOut(lines, out, opts);
    forall i | 0 <= i < |lines| ensures 10 !in out[i].content {
      assert ReaderLineAt(lines, i) && LineGoesOut(lines[i], out[i], i == |lines| - 1, opts);
    }
  }

  lemma EndingsOf(lines: seq<Line>, opts: TransformOptions)
    requires opts.lineEndings.Some?
    ensures forall i :: 0 <= i < |lines| ==>
      Transformed(lines, opts)[i].terminator == [] || Transformed(lines, opts)[i].terminator == Ending(opts)
  {
    LinesGoOut(lines, Transformed(lines, opts), opts);
    forall i | 0 <= i < |lines|
      ensures Transformed(lines, opts)[i].terminator == [] || Transformed(lines, opts)[i].terminator == Ending(opts)
    {
      assert LineGoesOut(lines[i], Transformed(lines, opts)[i], i == |lines| - 1, opts);
    }
  }

  /** Target LF, and every number that names no target, leaves a CR exactly where two CRs stood side by side. */
  lemma TargetLFInBytes(s: seq<byte>, opts: TransformOptions)
    requires opts.lineEndings.Some? && opts.lineEndings.value != 1 && opts.lineEndings.value != 2
    ensures 13 in TransformBytes(s, opts) <==> AdjacentCRs(s)
  {
    ContentsKeepCRs(s, opts);
    EndingsOf(ReadLines(s), opts);
    ByteOfLines(Transformed(ReadLines(s), opts), 13);
  }

  /** Target CR leaves no LF. */
  lemma TargetCRInBytes(s: seq<byte>, opts: TransformOptions)
    requires opts.lineEndings == Some(2)
    ensures 10 !in TransformBytes(s, opts)
  {
    NoLFInContents(s, opts);
    EndingsOf(ReadLines(s), opts);
    ByteOfLines(Transformed(ReadLines(s), opts), 10);
  }

  /** CR and LF stand only side by side, in this order. */
  ghost predicate Paired(s: seq<byte>) {
    && (forall i :: 0 <= i < |s| && s[i] == 13 ==> i + 1 < |s| && s[i + 1] == 10)
    && (forall i :: 0 <= i < |s| && s[i] == 10 ==> i > 0 && s[i - 1] == 13)
  }

  lemma {:induction false} PairedLines(lines: seq<Line>)
    requires forall i :: 0 <= i < |lines| ==> 10 !in lines[i].content && 13 !in lines[i].content
    requires forall i :: 0 <= i < |lines| ==> lines[i].terminator == [] || lines[i].terminator == [13, 10]
    ensures Paired(Serialize(lines))
    decreases |lines|
  {
    if lines != [] {
      var n := |lines| - 1;
      assert lines == lines[..n] + [lines[n]];
      SerializeSnoc(lines[..n], lines[n]);
      PairedLines(lines[..n]);
      PairedOn(Serialize(lines[..n]), lines[n].content, lines[n].terminator);
    }
  }

  lemma NotInContent(text: seq<byte>, content: seq<byte>, terminator: seq<byte>, i: nat)
    requires i < |text + content + terminator| && (text + content + terminator)[i] !in content
    ensures i < |text| || i >= |text + content|
  {
  }

  lemma PairedOn(text: seq<byte>, content: seq<byte>, terminator: seq<byte>)
    requires Paired(text) && 10 !in content && 13 !in content && (terminator == [] || terminator == [13, 10])
    ensures Paired(text + content + terminator)
  {
    var all := text + content + terminator;
    forall i | 0 <= i < |all| && all[i] == 13 ensures i + 1 < |all| && all[i + 1] == 10 {
      NotInContent(text, content, terminator, i);
    }
    forall i | 0 <= i < |all| && all[i] == 10 ensures i > 0 && all[i - 1] == 13 {
      NotInContent(text, content, terminator, i);
    }
  }

  /** Target CRLF writes CR and LF as the pair alone, if no two CRs stood side by side. */
  lemma TargetCRLFInBytes(s: seq<byte>, opts: TransformOptions)
    requires opts.lineEndings == Some(1) && !AdjacentCRs(s)
    ensures Paired(TransformBytes(s, opts))
  {
    ContentsKeepCRs(s, opts);
    NoLFInContents(s, opts);
    EndingsOf(ReadLines(s), opts);
    PairedLines(Transformed(ReadLines(s), opts));
  }

  // ---------- the counters ----------

  lemma {:induction false} CountIsCardinal(lines: seq<Line>, p: Line -> bool)
    ensures Count(lines, p) == |set i: nat | i < |lines| && p(lines[i])|
    decreases |lines|
  {
    if lines != [] {
      var n, front := |lines| - 1, lines[..|lines| - 1];
      assert lines == front + [lines[n]];
      CountSnoc(front, lines[n], p);
      CountIsCardinal(front, p);
      var before := set i: nat | i < |front| && p(front[i]);
      assert (set i: nat | i < |lines| && p(lines[i])) == before + if p(lines[n]) then {n} else {};
    }
  }

  lemma CountIs(lines: seq<Line>, p: Line -> bool, places: set<nat>)
    requires forall i: nat :: i in places <==> i < |lines| && p(lines[i])
    ensures Count(lines, p) == |places|
  {
    CountIsCardinal(lines, p);
    assert (set i: nat | i < |lines| && p(lines[i])) == places;
  }

  /** The lines that end like this. */
  ghost function WithEnding(lines: seq<Line>, ending: seq<byte>): set<nat> {
    set i: nat | i < |lines| && lines[i].terminator == ending
  }

  /** The terminated lines that do not end as asked for. */
  ghost function OtherEnding(lines: seq<Line>, ending: seq<byte>): set<nat> {
    set i: nat | i < |lines| && lines[i].terminator != [] && lines[i].terminator != ending
  }

  /** The lines that end in a blank. */
  ghost function EndInBlank(lines: seq<Line>): set<nat> {
    set i: nat | i < |lines| && lines[i].content != [] && Blank(lines[i].content[|lines[i].content| - 1])
  }

  /** What of the lines that end like this has to change. */
  ghost function ToConvert(lines: seq<Line>, ending: seq<byte>, asked: seq<byte>): nat {
    |WithEnding(lines, ending) - WithEnding(lines, asked)|
  }

  lemma EndingsCounted(lines: seq<Line>, ending: seq<byte>, asked: seq<byte>)
    ensures Count(lines, EndsWith(ending)) == |WithEnding(lines, ending)|
    ensures Converted(lines, ending, asked) == ToConvert(lines, ending, asked)
  {
    CountIs(lines, EndsWith(ending), WithEnding(lines, ending));
    if ending == asked {
      assert WithEnding(lines, ending) - WithEnding(lines, asked) == {};
    } else {
      assert WithEnding(lines, ending) - WithEnding(lines, asked) == WithEnding(lines, ending);
    }
  }

  lemma BlanksCounted(lines: seq<Line>)
    ensures Count(lines, HasTrailingBlanks()) == |EndInBlank(lines)|
  {
    forall i: nat | i < |lines|
      ensures HasTrailingBlanks()(lines[i]) <==> i in EndInBlank(lines)
    {
      var content := lines[i].content;
      assert content != [] && !Blank(content[|content| - 1]) ==> TrimBlanks(content) == content;
      BlanksGo(content);
    }
    CountIs(lines, HasTrailingBlanks(), EndInBlank(lines));
  }

  /** Without a target the counters of line endings stay at nothing. */
  lemma TrimsCounted(lines: seq<Line>, opts: TransformOptions)
    ensures StatsOf(lines, opts).trailingTrimmed == if opts.trimTrailing then |EndInBlank(lines)| else 0
    ensures StatsOf(lines, opts).finalNewlineAdded <==>
            opts.finalNewline && lines != [] && lines[|lines| - 1].terminator == []
    ensures opts.lineEndings == None ==> StatsOf(lines, opts).endingsChanged == 0
  {
    BlanksCounted(lines);
  }

  lemma EndingIsTarget(opts: TransformOptions)
    requires opts.lineEndings.Some?
    ensures TerminatorForTarget(opts.lineEndings.value) == Ending(opts)
  {
  }

  lemma ChangesCounted(lines: seq<Line>, opts: TransformOptions)
    requires opts.lineEndings.Some?
    ensures StatsOf(lines, opts).endingsChanged == |OtherEnding(lines, Ending(opts))|
  {
    EndingIsTarget(opts);
    CountIs(lines, Misses(Ending(opts)), OtherEnding(lines, Ending(opts)));
  }

  /** The counters are the numbers of the lines they name. */
  lemma StatsInBytes(lines: seq<Line>, opts: TransformOptions)
    requires opts.lineEndings.Some?
    ensures var stats, asked := StatsOf(lines, opts), Ending(opts);
      && stats.endingsChanged == |OtherEnding(lines, asked)|
      && stats.lfFound == |WithEnding(lines, [10])| && stats.lfConverted == ToConvert(lines, [10], asked)
      && stats.crFound == |WithEnding(lines, [13])| && stats.crConverted == ToConvert(lines, [13], asked)
      && stats.crlfFound == |WithEnding(lines, [13, 10])|
      && stats.crlfConverted == ToConvert(lines, [13, 10], asked)
  {
    var asked := Ending(opts);
    EndingIsTarget(opts);
    ChangesCounted(lines, opts);
    EndingsCounted(lines, [10], asked);
    EndingsCounted(lines, [13], asked);
    EndingsCounted(lines, [13, 10], asked);
  }
}
