/** When transforming a second time changes nothing: exact conditions, for every source and option set. */
module Idempotence {
  import opened Bytes
  import opened Lines
  import opened Transform
  import opened WouldChange

  // ---------- three shapes of text, said byte by byte ----------

  /** No blank stands right before a line terminator or at the end of the text. */
  ghost predicate NoTrailingBlanks(s: seq<byte>) {
    forall i :: 0 <= i < |s| && IsBlank(s[i]) ==> i + 1 < |s| && s[i + 1] != LF && s[i + 1] != CR
  }

  /** CR and LF occur only as the two halves of CRLF. */
  ghost predicate OnlyCRLF(s: seq<byte>) {
    && (forall i :: 0 <= i < |s| && s[i] == CR ==> i + 1 < |s| && s[i + 1] == LF)
    && (forall i :: 0 <= i < |s| && s[i] == LF ==> i > 0 && s[i - 1] == CR)
  }

  function TrailingCRs(s: seq<byte>): nat {
    if s == [] || s[|s| - 1] != CR then 0 else 1 + TrailingCRs(s[..|s| - 1])
  }

  /** The reader finds the last line terminated: the text is empty, ends in LF, or ends in an odd run of CRs. */
  predicate EndsTerminated(s: seq<byte>) {
    s == [] || s[|s| - 1] == LF || TrailingCRs(s) % 2 == 1
  }

  // ---------- what the counters see in a text of each shape ----------

  predicate LastTerminated(lines: seq<Line>) {
    lines == [] || lines[|lines| - 1].terminator != []
  }

  lemma {:induction false} TrailingCRsSkip(s: seq<byte>, k: nat)
    requires k <= |s|
    requires TrailingCRs(s[k..]) < |s| - k || (forall i :: 0 <= i < k ==> s[i] != CR)
    ensures TrailingCRs(s[k..]) == TrailingCRs(s)
    decreases |s|
  {
    if |s| == k {
      assert s[k..] == [];
    } else {
      var last := |s| - 1;
      assert s[k..][last - k] == s[last];
      assert s[k..][..last - k] == s[..last][k..];
      if s[last] == CR {
        TrailingCRsSkip(s[..last], k);
      }
    }
  }

  lemma {:induction false} TrailingCRsAll(s: seq<byte>)
    requires forall i :: 0 <= i < |s| ==> s[i] == CR
    ensures TrailingCRs(s) == |s|
    decreases |s|
  {
    if s != [] {
      TrailingCRsAll(s[..|s| - 1]);
    }
  }

  lemma {:induction false} TrailingCRsBound(s: seq<byte>)
    ensures TrailingCRs(s) <= |s|
    ensures TrailingCRs(s) == |s| ==> forall i :: 0 <= i < |s| ==> s[i] == CR
    decreases |s|
  {
    if s != [] && s[|s| - 1] == CR {
      TrailingCRsBound(s[..|s| - 1]);
    }
  }

  /** A lone CR and the content byte behind it never change the parity of the trailing run. */
  lemma TrailingParityOverPair(s: seq<byte>)
    requires |s| > 2 && s[0] == CR && s[1] != LF
    ensures TrailingCRs(s[2..]) % 2 == TrailingCRs(s) % 2
  {
    var tail := s[2..];
    TrailingCRsBound(tail);
    if TrailingCRs(tail) < |tail| {
      TrailingCRsSkip(s, 2);
    } else if s[1] == CR {
      assert forall i :: 2 <= i < |s| ==> s[i] == tail[i - 2];
      TrailingCRsAll(s);
    } else {
      assert s[1..][1..] == tail;
      TrailingCRsSkip(s[1..], 1);
      assert TrailingCRs(s[1..]) == |s| - 2 < |s| - 1;
      TrailingCRsSkip(s, 1);
    }
  }

  lemma {:induction false} LastLineTerminated(s: seq<byte>, content: seq<byte>)
    ensures LastTerminated(ReadLinesWith(s, content)) <==> if s == [] then content == [] else EndsTerminated(s)
    decreases |s|
  {
    if s == [] {
    } else if s[0] == CR && |s| > 1 {
      var next := if s[1] == LF then [] else [s[1]];
      LastLineTerminated(s[2..], next);
      if |s| > 2 && s[1] == LF {
        SkipToText(s, 2);
      } else if |s| > 2 {
        TrailingParityOverPair(s);
      } else {
        assert s[2..] == [] && s[..1] == [CR] && s[..1][..0] == [];
        assert TrailingCRs([CR]) == 1 && TrailingCRs(s) == if s[1] == CR then 2 else 0;
      }
    } else {
      LastLineTerminated(s[1..], if s[0] == LF || s[0] == CR then [] else content + [s[0]]);
      if |s| > 1 {
        SkipToText(s, 1);
      }
    }
  }

  lemma SkipToText(s: seq<byte>, k: nat)
    requires 0 < k < |s| && s[k - 1] != CR
    ensures EndsTerminated(s[k..]) == EndsTerminated(s)
  {
    var tail := s[k - 1..];
    assert tail[1..] == s[k..];
    TrailingCRsBound(s[k..]);
    TrailingCRsSkip(tail, 1);
    TrailingCRsBound(tail);
    TrailingCRsSkip(s, k - 1);
  }

  /** Trimming has nothing to do on a text without trailing blanks. */
  lemma {:induction false} NothingToTrim(s: seq<byte>, content: seq<byte>)
    requires NoTrailingBlanks(content + s)
    ensures forall i :: 0 <= i < |ReadLinesWith(s, content)| ==> !HasTrailingBlanks()(ReadLinesWith(s, content)[i])
    decreases |s|
  {
    if s != [] && s[0] != LF && s[0] != CR {
      assert content + s == content + [s[0]] + s[1..];
      NothingToTrim(s[1..], content + [s[0]]);
    } else {
      BodyHasNoTrailingBlanks(s, content);
      if s != [] && (|s| > 1 || s[0] == LF) {
        var rest, body := RestOfLines(s);
        assert body + rest == s[|s| - |body| - |rest|..];
        SuffixHasNoTrailingBlanks(content + s, |content| + |s| - |body| - |rest|);
        assert (content + s)[|content| + |s| - |body| - |rest|..] == body + rest;
        NothingToTrim(rest, body);
        assert ReadsOneLine(s, content, rest, body);
      }
    }
  }

  ghost predicate ReadsOneLine(s: seq<byte>, content: seq<byte>, rest: seq<byte>, body: seq<byte>) {
    var lines := ReadLinesWith(s, content);
    lines != [] && lines[0].content == content && lines[1..] == ReadLinesWith(rest, body)
  }

  /** Where reading goes on behind the terminator s starts with. */
  lemma RestOfLines(s: seq<byte>) returns (rest: seq<byte>, body: seq<byte>)
    requires s != [] && (s[0] == LF || (s[0] == CR && |s| > 1))
    ensures |rest| < |s| && |body| + |rest| < |s| && body + rest == s[|s| - |body| - |rest|..]
    ensures forall content :: ReadsOneLine(s, content, rest, body)
  {
    if s[0] == LF {
      rest, body := s[1..], [];
    } else if s[1] == LF {
      rest, body := s[2..], [];
    } else {
      rest, body := s[2..], [s[1]];
    }
  }

  lemma BodyHasNoTrailingBlanks(s: seq<byte>, content: seq<byte>)
    requires NoTrailingBlanks(content + s) && (s == [] || s[0] == LF || s[0] == CR)
    ensures TrimBlanks(content) == content
  {
    var k := |content|;
    assert content != [] ==> (content + s)[k - 1] == content[k - 1];
    assert s != [] ==> (content + s)[k] == s[0];
  }

  lemma SuffixHasNoTrailingBlanks(s: seq<byte>, k: nat)
    requires NoTrailingBlanks(s) && k <= |s|
    ensures NoTrailingBlanks(s[k..])
  {
  }

  /** Without any LF every terminator found is a lone CR. */
  lemma {:induction false} OnlyLoneCRs(s: seq<byte>, content: seq<byte>)
    requires forall i :: 0 <= i < |s| ==> s[i] != LF
    ensures forall i :: 0 <= i < |ReadLinesWith(s, content)| ==> !Misses(CR_TERM)(ReadLinesWith(s, content)[i])
    decreases |s|
  {
    if s == [] || (s[0] == CR && |s| == 1) {
    } else if s[0] == CR {
      OnlyLoneCRs(s[2..], [s[1]]);
    } else {
      OnlyLoneCRs(s[1..], content + [s[0]]);
    }
  }

  /** Without any CR every terminator found is LF. */
  lemma {:induction false} OnlyLFs(s: seq<byte>, content: seq<byte>)
    requires forall i :: 0 <= i < |s| ==> s[i] != CR
    ensures forall i :: 0 <= i < |ReadLinesWith(s, content)| ==> !Misses(LF_TERM)(ReadLinesWith(s, content)[i])
    decreases |s|
  {
    if s != [] {
      OnlyLFs(s[1..], if s[0] == LF then [] else content + [s[0]]);
    }
  }

  lemma OnlyCRLFSuffix(s: seq<byte>, k: nat)
    requires OnlyCRLF(s) && 0 < k <= |s| && s[k - 1] != CR
    ensures OnlyCRLF(s[k..])
  {
    var tail := s[k..];
    forall i | 0 <= i < |tail| && tail[i] == LF ensures i > 0 && tail[i - 1] == CR {
      assert s[i + k] == LF;
    }
    forall i | 0 <= i < |tail| && tail[i] == CR ensures i + 1 < |tail| && tail[i + 1] == LF {
      assert s[i + k] == CR;
    }
  }

  lemma {:induction false} OnlyCRLFs(s: seq<byte>, content: seq<byte>)
    requires OnlyCRLF(s)
    ensures forall i :: 0 <= i < |ReadLinesWith(s, content)| ==> !Misses(CRLF_TERM)(ReadLinesWith(s, content)[i])
    decreases |s|
  {
    if s == [] {
    } else if s[0] == CR {
      OnlyCRLFSuffix(s, 2);
      OnlyCRLFs(s[2..], []);
    } else {
      OnlyCRLFSuffix(s, 1);
      OnlyCRLFs(s[1..], content + [s[0]]);
    }
  }

  // ---------- the shape of what a transform writes ----------

  /** A line of a result: its content, no longer ending in a blank when trimmed, and its terminator. */
  ghost predicate ResultLine(line: Line, opts: TransformOptions) {
    && ContentFits(line.content, true)
    && (line.terminator == [] || IsTerminator(line.terminator))
    && (opts.trimTrailing && line.content != [] ==> !IsBlank(line.content[|line.content| - 1]))
    && (opts.lineEndings.Some? && line.terminator != [] ==>
        line.terminator == TerminatorForTarget(opts.lineEndings.value))
  }

  lemma {:induction false} WellDividedLines(lines: seq<Line>, afterCR: bool)
    requires WellDivided(lines, afterCR)
    ensures forall i :: 0 <= i < |lines| ==>
      && ContentFits(lines[i].content, true)
      && (if lines[i].terminator == [] then i == |lines| - 1 && lines[i].content != []
          else IsTerminator(lines[i].terminator))
    decreases |lines|
  {
    if lines != [] {
      WellDividedLines(lines[1..], lines[0].terminator == CR_TERM);
      assert forall i :: 1 <= i < |lines| ==> lines[i] == lines[1..][i - 1];
    }
  }

  lemma ResultLineOf(line: Line, opts: TransformOptions)
    requires ContentFits(line.content, true) && (line.terminator == [] || IsTerminator(line.terminator))
    ensures ResultLine(TransformLine(line, opts), opts)
    ensures ResultLine(TransformLine(line, opts).(terminator := DefaultFinalTerminator(opts)), opts)
  {
    TrimBlanksIsLongest(line.content);
  }

  lemma ResultLines(s: seq<byte>, opts: TransformOptions)
    ensures var out := Transformed(ReadLines(s), opts);
      && (forall i :: 0 <= i < |out| ==> ResultLine(out[i], opts))
      && (forall i :: 0 <= i < |out| - 1 ==> out[i].terminator != [])
  {
    var lines := ReadLines(s);
    ReadLinesDivides(s);
    WellDividedLines(lines, false);
    forall i | 0 <= i < |lines| ensures ResultLine(Transformed(lines, opts)[i], opts) {
      ResultLineOf(lines[i], opts);
    }
  }

  lemma NoTrailingBlanksConcat(xs: seq<byte>, ys: seq<byte>)
    requires NoTrailingBlanks(xs) && NoTrailingBlanks(ys)
    ensures NoTrailingBlanks(xs + ys)
  {
    var text := xs + ys;
    assert forall i :: |xs| <= i < |text| ==> text[i] == ys[i - |xs|];
  }

  lemma ResultLineHasNoTrailingBlanks(line: Line, opts: TransformOptions)
    requires opts.trimTrailing && ResultLine(line, opts)
    ensures NoTrailingBlanks(line.content + line.terminator)
  {
    assert NoTrailingBlanks(line.content) && NoTrailingBlanks(line.terminator);
    NoTrailingBlanksConcat(line.content, line.terminator);
  }

  lemma {:induction false} TrimmedResult(out: seq<Line>, opts: TransformOptions)
    requires opts.trimTrailing && forall i :: 0 <= i < |out| ==> ResultLine(out[i], opts)
    ensures NoTrailingBlanks(Serialize(out))
    decreases |out|
  {
    if out != [] {
      TrimmedResult(out[1..], opts);
      ResultLineHasNoTrailingBlanks(out[0], opts);
      NoTrailingBlanksConcat(out[0].content + out[0].terminator, Serialize(out[1..]));
    }
  }

  lemma {:induction false} CRResult(out: seq<Line>, opts: TransformOptions)
    requires opts.lineEndings == Some(TARGET_CR) && forall i :: 0 <= i < |out| ==> ResultLine(out[i], opts)
    ensures forall i :: 0 <= i < |Serialize(out)| ==> Serialize(out)[i] != LF
    decreases |out|
  {
    if out != [] {
      CRResult(out[1..], opts);
    }
  }

  lemma {:induction false} LFResult(out: seq<Line>, opts: TransformOptions)
    requires opts.lineEndings.Some? && TerminatorForTarget(opts.lineEndings.value) == LF_TERM
    requires PlainContents(out) && forall i :: 0 <= i < |out| ==> ResultLine(out[i], opts)
    ensures forall i :: 0 <= i < |Serialize(out)| ==> Serialize(out)[i] != CR
    decreases |out|
  {
    if out != [] {
      LFResult(out[1..], opts);
    }
  }

  lemma OnlyCRLFConcat(xs: seq<byte>, ys: seq<byte>)
    requires OnlyCRLF(xs) && OnlyCRLF(ys)
    ensures OnlyCRLF(xs + ys)
  {
    var text := xs + ys;
    assert forall i :: |xs| <= i < |text| ==> text[i] == ys[i - |xs|];
  }

  lemma {:induction false} CRLFResult(out: seq<Line>, opts: TransformOptions)
    requires opts.lineEndings == Some(TARGET_CRLF)
    requires PlainContents(out) && forall i :: 0 <= i < |out| ==> ResultLine(out[i], opts)
    ensures OnlyCRLF(Serialize(out))
    decreases |out|
  {
    if out != [] {
      CRLFResult(out[1..], opts);
      assert OnlyCRLF(out[0].content) && OnlyCRLF(out[0].terminator);
      OnlyCRLFConcat(out[0].content, out[0].terminator);
      OnlyCRLFConcat(out[0].content + out[0].terminator, Serialize(out[1..]));
    }
  }

  // ---------- and back: what an unchanged text tells about the lines it was written from ----------

  lemma {:induction false} OnlyLFLinesHaveNoCR(lines: seq<Line>)
    requires WellDivided(lines, false) && forall i :: 0 <= i < |lines| ==> !Misses(LF_TERM)(lines[i])
    ensures CR !in Serialize(lines)
    decreases |lines|
  {
    if lines != [] {
      assert lines[0] in lines;
      OnlyLFLinesHaveNoCR(lines[1..]);
    }
  }

  lemma {:induction false} OnlyCRLFLines(lines: seq<Line>)
    requires WellDivided(lines, false) && forall i :: 0 <= i < |lines| ==> !Misses(CRLF_TERM)(lines[i])
    ensures OnlyCRLF(Serialize(lines))
    decreases |lines|
  {
    if lines != [] {
      OnlyCRLFLines(lines[1..]);
      assert OnlyCRLF(lines[0].content) && OnlyCRLF(lines[0].terminator);
      OnlyCRLFConcat(lines[0].content, lines[0].terminator);
      OnlyCRLFConcat(lines[0].content + lines[0].terminator, Serialize(lines[1..]));
    }
  }

  lemma {:induction false} NoCRMeansPlain(out: seq<Line>)
    requires CR !in Serialize(out)
    ensures PlainContents(out)
    decreases |out|
  {
    if out != [] {
      var tail := out[0].terminator + Serialize(out[1..]);
      assert Serialize(out) == out[0].content + tail;
      assert forall b :: b in tail ==> b in Serialize(out);
      NoCRMeansPlain(out[1..]);
      PlainTail(out);
    }
  }

  lemma {:induction false} OnlyCRLFMeansPlain(out: seq<Line>, opts: TransformOptions)
    requires opts.lineEndings == Some(TARGET_CRLF) && forall i :: 0 <= i < |out| ==> ResultLine(out[i], opts)
    requires forall i :: 0 <= i < |out| - 1 ==> out[i].terminator != []
    requires OnlyCRLF(Serialize(out))
    ensures PlainContents(out)
    decreases |out|
  {
    if out != [] {
      var text, c, t := Serialize(out), out[0].content, out[0].terminator;
      var rest := Serialize(out[1..]);
      assert text == c + (t + rest) && text[|c|..] == t + rest;
      forall i | 0 <= i < |c| ensures c[i] != CR {
        assert text[i] == c[i] && (i + 1 < |c| ==> text[i + 1] == c[i + 1]);
        assert i + 1 == |c| && t != [] ==> text[i + 1] == t[0];
        assert t == [] ==> |text| == |c|;
      }
      if |out| > 1 {
        var n := |c| + 2;
        assert t == CRLF_TERM && text[n - 1] == LF;
        assert forall i :: 0 <= i < |rest| ==> rest[i] == text[i + n];
        assert OnlyCRLF(rest);
        OnlyCRLFMeansPlain(out[1..], opts);
      }
      PlainTail(out);
    }
  }

  lemma TransformKeepsCRs(lines: seq<Line>, opts: TransformOptions)
    requires !PlainContents(lines)
    requires forall i :: 0 <= i < |lines| ==> ContentFits(lines[i].content, true)
    ensures !PlainContents(Transformed(lines, opts))
  {
    var out := Transformed(lines, opts);
    var i, k :| 0 <= i < |lines| && 0 <= k < |lines[i].content| && lines[i].content[k] == CR;
    TrimBlanksIsLongest(lines[i].content);
    assert out[i].content[k] == CR;
  }

  // ---------- the theorems ----------

  lemma PlainResult(lines: seq<Line>, opts: TransformOptions)
    requires PlainContents(lines)
    ensures PlainContents(Transformed(lines, opts))
  {
    var out := Transformed(lines, opts);
    assert forall i :: 0 <= i < |lines| ==> out[i].content <= lines[i].content;
  }

  lemma EndsInTerminator(lines: seq<Line>)
    requires lines != [] && lines[|lines| - 1].terminator != []
    ensures var t := lines[|lines| - 1].terminator;
            Serialize(lines) != [] && Serialize(lines)[|Serialize(lines)| - 1] == t[|t| - 1]
  {
    var n := |lines| - 1;
    assert lines == lines[..n] + [lines[n]];
    SerializeSnoc(lines[..n], lines[n]);
  }

  /** What the counters report on a text: each option looks at one shape of it. */
  lemma NoChangeByShape(text: seq<byte>, opts: TransformOptions)
    ensures TransformBytes(text, opts) == text <==>
      && (opts.lineEndings.Some? ==>
          forall i :: 0 <= i < |ReadLines(text)| ==>
            !Misses(TerminatorForTarget(opts.lineEndings.value))(ReadLines(text)[i]))
      && (opts.trimTrailing ==> forall i :: 0 <= i < |ReadLines(text)| ==> !HasTrailingBlanks()(ReadLines(text)[i]))
      && (opts.finalNewline ==> EndsTerminated(text))
  {
    var lines := ReadLines(text);
    WouldChangeIsExact(text, opts);
    CountIsZero(lines, HasTrailingBlanks());
    LastLineTerminated(text, []);
    if opts.lineEndings.Some? {
      CountIsZero(lines, Misses(TerminatorForTarget(opts.lineEndings.value)));
    }
  }

  /** Trimming twice never trims more than once, whatever the source. */
  lemma TrimIsStable(s: seq<byte>, opts: TransformOptions)
    requires opts.trimTrailing
    ensures var again := ReadLines(TransformBytes(s, opts));
            forall i :: 0 <= i < |again| ==> !HasTrailingBlanks()(again[i])
  {
    ResultLines(s, opts);
    TrimmedResult(Transformed(ReadLines(s), opts), opts);
    var text := TransformBytes(s, opts);
    assert [] + text == text;
    NothingToTrim(text, []);
  }

  /** Targets LF and CRLF, and every integer that behaves like LF: the second pass changes nothing if and only if the
      source has no two adjacent CRs. */
  lemma IdempotentForLFAndCRLF(s: seq<byte>, opts: TransformOptions)
    requires opts.lineEndings.Some? && opts.lineEndings.value != TARGET_CR
    ensures var once := TransformBytes(s, opts);
            TransformBytes(once, opts) == once <==> NoAdjacentCR(s)
  {
    var lines, want := ReadLines(s), TerminatorForTarget(opts.lineEndings.value);
    var out, once := Transformed(lines, opts), TransformBytes(s, opts);
    ResultLines(s, opts);
    NoChangeByShape(once, opts);
    PlainIffNoAdjacentCR(s, []);
    if NoAdjacentCR(s) {
      PlainResult(lines, opts);
      if want == LF_TERM {
        LFResult(out, opts);
        OnlyLFs(once, []);
      } else {
        CRLFResult(out, opts);
        OnlyCRLFs(once, []);
      }
      if opts.trimTrailing {
        TrimIsStable(s, opts);
      }
      if opts.finalNewline && out != [] {
        EndsInTerminator(out);
      }
    } else if TransformBytes(once, opts) == once {
      ReadLinesDivides(s);
      WellDividedLines(lines, false);
      TransformKeepsCRs(lines, opts);
      ReadLinesKeepsBytes(once);
      ReadLinesDivides(once);
      if want == LF_TERM {
        OnlyLFLinesHaveNoCR(ReadLines(once));
        NoCRMeansPlain(out);
      } else {
        OnlyCRLFLines(ReadLines(once));
        OnlyCRLFMeansPlain(out, opts);
      }
    }
  }

  // ---------- when a final newline is added twice, said of the source's lines ----------

  /** A source line as a transform with the final-newline option puts it out. */
  function Outgoing(line: Line, opts: TransformOptions): Line {
    var out := TransformLine(line, opts);
    if line.terminator == [] then out.(terminator := DefaultFinalTerminator(opts)) else out
  }

  /** How many CRs the outgoing lines end in, counted from the last line backwards: each line that goes out with a lone
      CR counts one, one more if its outgoing content is a lone CR itself, and the count stops at any other content. */
  function ClosingCRs(lines: seq<Line>, opts: TransformOptions): nat {
    if lines == [] then 0
    else
      var out, front := Outgoing(lines[|lines| - 1], opts), lines[..|lines| - 1];
      if out.terminator != CR_TERM then 0
      else if out.content == [] then 1 + ClosingCRs(front, opts)
      else if out.content == [CR] then 2 + ClosingCRs(front, opts)
      else 1
  }

  /** The last line does not go out with a CR, or the CRs there are odd in number: the reader then finds it
      terminated. */
  predicate ClosesForGood(lines: seq<Line>, opts: TransformOptions) {
    lines == [] || Outgoing(lines[|lines| - 1], opts).terminator != CR_TERM || ClosingCRs(lines, opts) % 2 == 1
  }

  function OutgoingLines(lines: seq<Line>, opts: TransformOptions): seq<Line> {
    seq(|lines|, i requires 0 <= i < |lines| => Outgoing(lines[i], opts))
  }

  /** A line as the reader makes it: a CR stands first in a content or not at all. */
  ghost predicate ReaderLine(line: Line) {
    && ContentFits(line.content, true)
    && (line.terminator == [] || IsTerminator(line.terminator))
  }

  ghost predicate ReaderLines(lines: seq<Line>) {
    forall i :: 0 <= i < |lines| ==> ReaderLine(lines[i])
  }

  lemma GoesOutTerminated(lines: seq<Line>, opts: TransformOptions)
    requires ReaderLines(lines) && lines != []
    ensures IsTerminator(Outgoing(lines[|lines| - 1], opts).terminator)
  {
    assert ReaderLine(lines[|lines| - 1]);
  }

  lemma TrailingCRsOfLine(before: seq<byte>, line: Line, opts: TransformOptions)
    requires ReaderLine(line) && Outgoing(line, opts).terminator == CR_TERM
    ensures var out := Outgoing(line, opts);
      TrailingCRs(before + out.content + CR_TERM) ==
      if out.content == [] then 1 + TrailingCRs(before) else if out.content == [CR] then 2 + TrailingCRs(before) else 1
  {
    var content := Outgoing(line, opts).content;
    var text := before + content;
    assert (text + CR_TERM)[..|text|] == text;
    if content == [] {
      assert text == before;
    } else if content == [CR] {
      assert text[..|before|] == before;
    } else {
      assert text[|text| - 1] == content[|content| - 1] != CR;
    }
  }

  /** The count from the lines is the count from the bytes. */
  lemma {:induction false} ClosingCRsAreTrailing(lines: seq<Line>, opts: TransformOptions)
    requires ReaderLines(lines)
    ensures TrailingCRs(Serialize(OutgoingLines(lines, opts))) == ClosingCRs(lines, opts)
    decreases |lines|
  {
    var all := OutgoingLines(lines, opts);
    if lines == [] {
      assert all == [];
    } else {
      var n := |lines| - 1;
      var out, before := all[n], Serialize(OutgoingLines(lines[..n], opts));
      assert all == OutgoingLines(lines[..n], opts) + [out];
      SerializeSnoc(OutgoingLines(lines[..n], opts), out);
      GoesOutTerminated(lines, opts);
      if out.terminator == CR_TERM {
        ClosingCRsAreTrailing(lines[..n], opts);
        TrailingCRsOfLine(before, lines[n], opts);
      } else {
        EndsInLF(before + out.content, out.terminator);
      }
    }
  }

  lemma EndsInLF(text: seq<byte>, terminator: seq<byte>)
    requires terminator == LF_TERM || terminator == CRLF_TERM
    ensures var all := text + terminator; all[|all| - 1] == LF && TrailingCRs(all) == 0
  {
  }

  lemma DecidedByEnd(text: seq<byte>, terminator: seq<byte>, crs: nat)
    requires IsTerminator(terminator) && TrailingCRs(text + terminator) == crs
    ensures EndsTerminated(text + terminator) <==> terminator != CR_TERM || crs % 2 == 1
  {
    var all := text + terminator;
    assert all[|all| - 1] == terminator[|terminator| - 1];
  }

  lemma LastLineSpelled(lines: seq<Line>, opts: TransformOptions)
    requires lines != []
    ensures var all, last := OutgoingLines(lines, opts), Outgoing(lines[|lines| - 1], opts);
      Serialize(all) == Serialize(all[..|lines| - 1]) + last.content + last.terminator
  {
    var all, n := OutgoingLines(lines, opts), |lines| - 1;
    assert all == all[..n] + [all[n]];
    SerializeSnoc(all[..n], all[n]);
  }

  lemma EndsTerminatedByLines(lines: seq<Line>, opts: TransformOptions)
    requires ReaderLines(lines)
    ensures EndsTerminated(Serialize(OutgoingLines(lines, opts))) <==> ClosesForGood(lines, opts)
  {
    ClosingCRsAreTrailing(lines, opts);
    if lines != [] {
      var all, last := OutgoingLines(lines, opts), Outgoing(lines[|lines| - 1], opts);
      GoesOutTerminated(lines, opts);
      LastLineSpelled(lines, opts);
      DecidedByEnd(Serialize(all[..|lines| - 1]) + last.content, last.terminator, ClosingCRs(lines, opts));
    }
  }

  lemma OutgoingIsTransformed(s: seq<byte>, opts: TransformOptions)
    requires opts.finalNewline
    ensures OutgoingLines(ReadLines(s), opts) == Transformed(ReadLines(s), opts)
    ensures ReaderLines(ReadLines(s))
  {
    ReadLinesDivides(s);
    WellDividedLines(ReadLines(s), false);
  }

  /** Target CR, or no target, said of the source alone: the second pass changes nothing if and only if no final newline
      is asked for or the source's lines close for good. */
  lemma IdempotentOtherwise(s: seq<byte>, opts: TransformOptions)
    requires opts.lineEndings == None || opts.lineEndings == Some(TARGET_CR)
    ensures TransformBytes(TransformBytes(s, opts), opts) == TransformBytes(s, opts) <==>
            (opts.finalNewline ==> ClosesForGood(ReadLines(s), opts))
  {
    OtherwiseByFirstResult(s, opts);
    if opts.finalNewline {
      OutgoingIsTransformed(s, opts);
      EndsTerminatedByLines(ReadLines(s), opts);
    }
  }

  /** What decides is how the first result ends. */
  lemma OtherwiseByFirstResult(s: seq<byte>, opts: TransformOptions)
    requires opts.lineEndings == None || opts.lineEndings == Some(TARGET_CR)
    ensures var once := TransformBytes(s, opts);
            TransformBytes(once, opts) == once <==> (opts.finalNewline ==> EndsTerminated(once))
  {
    var once := TransformBytes(s, opts);
    ResultLines(s, opts);
    NoChangeByShape(once, opts);
    if opts.lineEndings.Some? {
      CRResult(Transformed(ReadLines(s), opts), opts);
      OnlyLoneCRs(once, []);
    }
    if opts.trimTrailing {
      TrimIsStable(s, opts);
    }
  }

  /** Without a target and without trimming the second pass never changes anything. */
  lemma IdempotentWithoutTargetOrTrim(s: seq<byte>, opts: TransformOptions)
    requires opts.lineEndings == None && !opts.trimTrailing
    ensures TransformBytes(TransformBytes(s, opts), opts) == TransformBytes(s, opts)
  {
    var lines, once := ReadLines(s), TransformBytes(s, opts);
    ReadLinesKeepsBytes(s);
    assert Mapped(lines, opts) == lines;
    FinalNewlineComesLast(lines, opts);
    LastLineTerminated(s, []);
    OtherwiseByFirstResult(s, opts);
  }

  lemma ReadOneLF(content: seq<byte>, rest: seq<byte>)
    ensures ReadLinesWith([LF] + rest, content) == [Line(content, LF_TERM)] + ReadLinesWith(rest, [])
  {
    assert ([LF] + rest)[1..] == rest;
  }

  lemma ReadTwoLFs(b: byte)
    requires b != LF && b != CR
    ensures ReadLines([b, LF, LF]) == [Line([b], LF_TERM), Line([], LF_TERM)]
  {
    ReadPlainRun([b], [LF, LF], []);
    ReadOneLF([b], [LF]);
    ReadOneLF([], []);
    assert [b, LF, LF] == [b] + [LF, LF] && [] + [b] == [b] && [LF, LF] == [LF] + [LF] && [LF] + [] == [LF];
  }

  /** "a" and two line feeds, target CR with a final newline: the second CR of the result is read as content. */
  lemma TwiceToCRDiffers()
    ensures var opts := TransformOptions(Some(TARGET_CR), false, true);
            TransformBytes(TransformBytes([97, LF, LF], opts), opts) != TransformBytes([97, LF, LF], opts)
  {
    var opts := TransformOptions(Some(TARGET_CR), false, true);
    ReadTwoLFs(97);
    TwoLinesCloseTwice(Line([97], LF_TERM), Line([], LF_TERM), opts);
    IdempotentOtherwise([97, LF, LF], opts);
  }

  lemma TwoLinesCloseTwice(first: Line, second: Line, opts: TransformOptions)
    requires Outgoing(first, opts) == Line([97], CR_TERM) && Outgoing(second, opts) == Line([], CR_TERM)
    ensures ClosingCRs([first, second], opts) == 2 && !ClosesForGood([first, second], opts)
  {
    assert [first, second][..1] == [first];
    assert ClosingCRs([first], opts) == 1;
  }

  lemma ReadOneCR(content: seq<byte>, b: byte, rest: seq<byte>)
    requires b != LF
    ensures ReadLinesWith([CR, b] + rest, content) == [Line(content, CR_TERM)] + ReadLinesWith(rest, [b])
  {
    assert ([CR, b] + rest)[2..] == rest;
  }

  /** "a", a CR, a blank and a CR, trimmed without a target: trimming brings the two CRs together. */
  lemma TwiceTrimmedDiffers()
    ensures var opts := TransformOptions(None, true, true);
            TransformBytes(TransformBytes([97, CR, SPACE, CR], opts), opts) != TransformBytes([97, CR, SPACE, CR], opts)
  {
    var opts := TransformOptions(None, true, true);
    ReadPlainRun([97], [CR, SPACE, CR], []);
    ReadOneCR([97], SPACE, [CR]);
    assert [97, CR, SPACE, CR] == [97] + [CR, SPACE, CR] && [] + [97] == [97] && [CR, SPACE] + [CR] == [CR, SPACE, CR];
    assert ReadLines([97, CR, SPACE, CR]) == [Line([97], CR_TERM), Line([SPACE], CR_TERM)];
    TrimBlanksIsLongest([97]);
    TrimBlanksIsLongest([SPACE]);
    TwoLinesCloseTwice(Line([97], CR_TERM), Line([SPACE], CR_TERM), opts);
    IdempotentOtherwise([97, CR, SPACE, CR], opts);
  }
}
