/** The two divisions of a source into lines, told by byte values alone: 10 is LF, 13 is CR. */
module PlainLines {
  import opened Bytes
  import opened Lines
  import opened Spans

  /** A line ends with LF, CR, or CR and LF; only the last may end with nothing, and then it is not empty. */
  ghost predicate Ends(line: Line, last: bool) {
    line.terminator == [10] || line.terminator == [13] || line.terminator == [13, 10]
    || (last && line.terminator == [] && line.content != [])
  }

  ghost predicate BehindCR(lines: seq<Line>, i: nat)
    requires i < |lines|
  {
    i > 0 && lines[i - 1].terminator == [13]
  }

  lemma SerializeInBytes(line: Line, xs: seq<Line>, ys: seq<Line>)
    ensures Serialize([]) == [] && Serialize([line]) == line.content + line.terminator
    ensures Serialize(xs + ys) == Serialize(xs) + Serialize(ys)
  {
    SerializeAppend(xs, ys);
    SerializeSnoc([], line);
    assert [] + [line] == [line];
  }

  // ---------- the line reader ----------

  /** No LF in a content; a CR only as the first byte behind a line that a lone CR ended, and such a line is not
      empty. */
  ghost predicate ReaderLineAt(lines: seq<Line>, i: nat)
    requires i < |lines|
  {
    && Ends(lines[i], i == |lines| - 1) && 10 !in lines[i].content
    && (forall k :: 0 < k < |lines[i].content| ==> lines[i].content[k] != 13)
    && (lines[i].content != [] && lines[i].content[0] == 13 ==> BehindCR(lines, i))
    && (BehindCR(lines, i) ==> lines[i].content != [])
  }

  lemma {:induction false} DividedInBytes(lines: seq<Line>, afterCR: bool)
    requires WellDivided(lines, afterCR)
    ensures forall i :: 0 < i < |lines| ==> ReaderLineAt(lines, i)
    ensures lines != [] ==> Ends(lines[0], |lines| == 1) && 10 !in lines[0].content
    ensures lines != [] ==> forall k :: 0 <= k < |lines[0].content| && lines[0].content[k] == 13 ==> k == 0 && afterCR
    ensures lines != [] && afterCR ==> lines[0].content != []
    decreases |lines|
  {
    if lines != [] {
      var rest := lines[1..];
      DividedInBytes(rest, lines[0].terminator == CR_TERM);
      forall i | 0 < i < |lines| ensures ReaderLineAt(lines, i) {
        assert lines[i] == rest[i - 1] && (i > 1 ==> lines[i - 1] == rest[i - 2]);
        if i > 1 {
          assert ReaderLineAt(rest, i - 1);
        }
      }
    }
  }

  /** What the reader makes of any source. */
  lemma ReadLinesInBytes(s: seq<byte>)
    ensures Serialize(ReadLines(s)) == s
    ensures forall i :: 0 <= i < |ReadLines(s)| ==> ReaderLineAt(ReadLines(s), i)
  {
    ReadLinesKeepsBytes(s);
    ReadLinesDivides(s);
    DividedInBytes(ReadLines(s), false);
  }

  // ---------- the span scanner ----------

  /** Neither LF nor CR in a content, and no LF right behind a line that a lone CR ended. */
  ghost predicate SpanLineAt(lines: seq<Line>, i: nat)
    requires i < |lines|
  {
    && Ends(lines[i], i == |lines| - 1) && 10 !in lines[i].content && 13 !in lines[i].content
    && (BehindCR(lines, i) && lines[i].content == [] ==> lines[i].terminator != [10])
  }

  /** Span i has number i + 1 and lies where line i does. */
  ghost predicate Locates(lines: seq<Line>, spans: seq<LineSpan>, i: nat)
    requires i < |lines| == |spans|
  {
    && spans[i].lineNum == i + 1 && spans[i].start == |Serialize(lines[..i])|
    && spans[i].contentEnd == spans[i].start + |lines[i].content|
    && spans[i].end == spans[i].contentEnd + |lines[i].terminator|
  }

  lemma SpanInBytes(s: seq<byte>, span: LineSpan)
    requires SpanFits(s, span) && span.start < span.end
    ensures var line := LineOf(s, span);
      && Ends(line, span.end == |s|) && 10 !in line.content && 13 !in line.content
      && (span.kind == TermNone ==> span.end == |s|) && (line.terminator == [13] ==> span.kind == TermCR)
      && (line.content == [] && line.terminator == [10] ==> s[span.start] == 10)
  {
    assert s[span.contentEnd..span.end] == span.kind.Bytes();
  }

  lemma SpanAt(s: seq<byte>, i: nat)
    requires i < |SpansOf(s)|
    ensures var spans, lines := SpansOf(s), SpanLines(s);
      && |lines| == |spans| && SpanFits(s, spans[i]) && lines[i] == LineOf(s, spans[i])
      && spans[i].lineNum == i + 1 && spans[i].start < spans[i].end
      && spans[i].start == (if i == 0 then 0 else spans[i - 1].end)
  {
    SpansTile(s);
    LinesOfAt(s, SpansOf(s), 0, 0);
    TileAt(s, SpansOf(s), 0, 0, i);
  }

  /** The bytes of the first i span lines. */
  ghost function BytesBefore(s: seq<byte>, i: nat): nat {
    if i <= |SpanLines(s)| then |Serialize(SpanLines(s)[..i])| else 0
  }

  lemma OneLineMore(s: seq<byte>, i: nat)
    requires i < |SpanLines(s)|
    ensures BytesBefore(s, i + 1) == BytesBefore(s, i) + |SpanLines(s)[i].content| + |SpanLines(s)[i].terminator|
  {
    var lines := SpanLines(s);
    SerializeSnoc(lines[..i], lines[i]);
    assert lines[..i + 1] == lines[..i] + [lines[i]];
  }

  lemma {:induction false} StartsBehind(s: seq<byte>, i: nat)
    requires i < |SpansOf(s)|
    ensures |SpanLines(s)| == |SpansOf(s)| && BytesBefore(s, i) == SpansOf(s)[i].start
    decreases i
  {
    SpanAt(s, i);
    if i > 0 {
      SpanAt(s, i - 1);
      StartsBehind(s, i - 1);
      OneLineMore(s, i - 1);
    }
  }

  lemma SpanLocates(s: seq<byte>, i: nat)
    requires i < |SpansOf(s)|
    ensures |SpanLines(s)| == |SpansOf(s)| && Locates(SpanLines(s), SpansOf(s), i)
  {
    SpanAt(s, i);
    StartsBehind(s, i);
  }

  lemma SpanLineInBytes(s: seq<byte>, i: nat)
    requires i < |SpansOf(s)|
    ensures |SpanLines(s)| == |SpansOf(s)| && SpanLineAt(SpanLines(s), i)
  {
    SpanAt(s, i);
    SpanInBytes(s, SpansOf(s)[i]);
    if i > 0 {
      SpanAt(s, i - 1);
      SpanInBytes(s, SpansOf(s)[i - 1]);
    }
    if i < |SpansOf(s)| - 1 {
      SpanAt(s, i + 1);
    }
  }

  /** What the scanner makes of any source, and where its spans lie. */
  lemma SpanLinesInBytes(s: seq<byte>)
    ensures Serialize(SpanLines(s)) == s && |SpanLines(s)| == |SpansOf(s)|
    ensures forall i :: 0 <= i < |SpanLines(s)| ==> SpanLineAt(SpanLines(s), i)
    ensures forall i :: 0 <= i < |SpanLines(s)| ==> Locates(SpanLines(s), SpansOf(s), i)
  {
    SpanLinesKeepBytes(s);
    SpansTile(s);
    LinesOfAt(s, SpansOf(s), 0, 0);
    forall i | 0 <= i < |SpansOf(s)|
      ensures SpanLineAt(SpanLines(s), i) && Locates(SpanLines(s), SpansOf(s), i)
    {
      SpanLineInBytes(s, i);
      SpanLocates(s, i);
    }
  }
}
