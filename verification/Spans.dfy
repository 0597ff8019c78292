/** Line spans: a source divided into lines by byte offsets alone. */
module Spans {
  import opened Bytes
  import opened Lines

  datatype TerminatorKind = TermNone | TermLF | TermCRLF | TermCR
  {
    function Len(): nat {
      match this
      case TermNone => 0
      case TermLF => 1
      case TermCRLF => 2
      case TermCR => 1
    }

    function Bytes(): seq<byte> {
      match this
      case TermNone => []
      case TermLF => LF_TERM
      case TermCRLF => CRLF_TERM
      case TermCR => CR_TERM
    }
  }

  /** Half-open byte offsets of one line. Its content starts where the line starts. */
  datatype LineSpan = LineSpan(lineNum: nat, start: nat, contentEnd: nat, end: nat, kind: TerminatorKind)

  /** A CR with an LF behind it is one terminator; any other CR ends its line alone, and the byte behind it is looked
      at afresh. */
  function KindAt(s: seq<byte>, i: nat): TerminatorKind
    requires i < |s|
  {
    if s[i] == LF then TermLF
    else if s[i] == CR then (if i + 1 < |s| && s[i + 1] == LF then TermCRLF else TermCR)
    else TermNone
  }

  /** The spans of s from line begin on, when the bytes of that line up to cursor hold no terminator. */
  function SpansFrom(s: seq<byte>, begin: nat, cursor: nat, lineNum: nat): seq<LineSpan>
    requires begin <= cursor <= |s|
    decreases |s| - cursor
  {
    if cursor == |s| then
      if begin < cursor then [LineSpan(lineNum + 1, begin, cursor, cursor, TermNone)] else []
    else
      var kind := KindAt(s, cursor);
      if kind == TermNone then SpansFrom(s, begin, cursor + 1, lineNum)
      else
        var end := cursor + kind.Len();
        [LineSpan(lineNum + 1, begin, cursor, end, kind)] + SpansFrom(s, end, end, lineNum + 1)
  }

  function SpansOf(s: seq<byte>): seq<LineSpan> {
    SpansFrom(s, 0, 0, 0)
  }

  // ---------- the laws of a division into spans ----------

  ghost predicate SpanFits(s: seq<byte>, span: LineSpan) {
    && span.start <= span.contentEnd <= span.end <= |s|
    && s[span.contentEnd..span.end] == span.kind.Bytes()
    && (forall i :: span.start <= i < span.contentEnd ==> s[i] != LF && s[i] != CR)
    && (span.kind == TermNone ==> span.start < span.contentEnd && span.end == |s|)
    && (span.kind == TermCR && span.end < |s| ==> s[span.end] != LF)
  }

  /** Numbered from lineNum + 1, each starting where the one before ended, covering [from, |s|). */
  ghost predicate Tiles(s: seq<byte>, spans: seq<LineSpan>, from: nat, lineNum: nat)
    decreases |spans|
  {
    if spans == [] then from == |s|
    else
      && spans[0].lineNum == lineNum + 1 && spans[0].start == from && from < spans[0].end
      && SpanFits(s, spans[0])
      && Tiles(s, spans[1..], spans[0].end, lineNum + 1)
  }

  lemma SpanAtFits(s: seq<byte>, begin: nat, cursor: nat, lineNum: nat)
    requires begin <= cursor < |s| && KindAt(s, cursor) != TermNone
    requires forall i :: begin <= i < cursor ==> s[i] != LF && s[i] != CR
    ensures var kind := KindAt(s, cursor);
      cursor + kind.Len() <= |s| && SpanFits(s, LineSpan(lineNum + 1, begin, cursor, cursor + kind.Len(), kind))
  {
    var kind := KindAt(s, cursor);
    assert s[cursor..cursor + kind.Len()] == kind.Bytes();
  }

  lemma LastTile(s: seq<byte>, begin: nat, lineNum: nat)
    requires begin <= |s| && forall i :: begin <= i < |s| ==> s[i] != LF && s[i] != CR
    ensures Tiles(s, SpansFrom(s, begin, |s|, lineNum), begin, lineNum)
  {
    if begin < |s| {
      var span := LineSpan(lineNum + 1, begin, |s|, |s|, TermNone);
      assert s[|s|..|s|] == [];
      OneTileMore(s, span, []);
      assert [span] + [] == [span];
    }
  }

  lemma OneTileMore(s: seq<byte>, span: LineSpan, rest: seq<LineSpan>)
    requires span.lineNum > 0 && span.start < span.end && SpanFits(s, span) && Tiles(s, rest, span.end, span.lineNum)
    ensures Tiles(s, [span] + rest, span.start, span.lineNum - 1)
  {
    assert ([span] + rest)[1..] == rest;
  }

  lemma {:induction false} SpansFromTile(s: seq<byte>, begin: nat, cursor: nat, lineNum: nat)
    requires begin <= cursor <= |s|
    requires forall i :: begin <= i < cursor ==> s[i] != LF && s[i] != CR
    ensures Tiles(s, SpansFrom(s, begin, cursor, lineNum), begin, lineNum)
    decreases |s| - cursor
  {
    if cursor == |s| {
      LastTile(s, begin, lineNum);
    } else {
      var kind := KindAt(s, cursor);
      if kind == TermNone {
        SpansFromTile(s, begin, cursor + 1, lineNum);
      } else {
        var end := cursor + kind.Len();
        SpanAtFits(s, begin, cursor, lineNum);
        SpansFromTile(s, end, end, lineNum + 1);
        OneTileMore(s, LineSpan(lineNum + 1, begin, cursor, end, kind), SpansFrom(s, end, end, lineNum + 1));
      }
    }
  }

  /** On every input the spans are numbered from 1, contiguous from 0 to the length, and end where lines end. */
  lemma SpansTile(s: seq<byte>)
    ensures Tiles(s, SpansOf(s), 0, 0)
  {
    SpansFromTile(s, 0, 0, 0);
  }

  lemma HeadTile(s: seq<byte>, spans: seq<LineSpan>, from: nat, lineNum: nat)
    requires Tiles(s, spans, from, lineNum) && spans != []
    ensures SpanFits(s, spans[0]) && spans[0].lineNum == lineNum + 1 && from == spans[0].start < spans[0].end
    ensures if |spans| == 1 then spans[0].end == |s| else spans[1].start == spans[0].end
  {
    assert |spans| > 1 ==> spans[1..][0] == spans[1];
  }

  /** Where a span's content ends, the bytes say how the span is terminated. */
  lemma TileEnds(s: seq<byte>, span: LineSpan)
    requires SpanFits(s, span) && span.contentEnd < |s|
    ensures span.kind == KindAt(s, span.contentEnd) != TermNone && span.end == span.contentEnd + span.kind.Len()
  {
    var t := span.kind.Bytes();
    assert t == s[span.contentEnd..span.end] && |t| == span.kind.Len();
    assert |t| > 0 ==> s[span.contentEnd] == t[0];
    assert |t| == 2 ==> s[span.contentEnd + 1] == t[1];
  }

  /** Nothing is left behind the last byte. */
  lemma LastTileIsUnique(s: seq<byte>, spans: seq<LineSpan>, begin: nat, lineNum: nat)
    requires Tiles(s, spans, begin, lineNum) && (spans != [] ==> |s| <= spans[0].contentEnd)
    ensures spans == if begin < |s| then [LineSpan(lineNum + 1, begin, |s|, |s|, TermNone)] else []
  {
    if spans != [] {
      HeadTile(s, spans, begin, lineNum);
      assert spans[0].kind.Bytes() == [];
      assert spans[1..] == [];
      assert spans == [spans[0]];
    }
  }

  lemma {:induction false} TilesAreSpansFrom(s: seq<byte>, spans: seq<LineSpan>, begin: nat, cursor: nat, lineNum: nat)
    requires begin <= cursor <= |s| && Tiles(s, spans, begin, lineNum)
    requires spans != [] ==> cursor <= spans[0].contentEnd
    ensures spans == SpansFrom(s, begin, cursor, lineNum)
    decreases |s| - cursor, 0
  {
    if cursor == |s| {
      LastTileIsUnique(s, spans, begin, lineNum);
    } else if spans != [] {
      if cursor < spans[0].contentEnd {
        TilesAreSpansFrom(s, spans, begin, cursor + 1, lineNum);
      } else {
        TileEnds(s, spans[0]);
        assert spans[0] == LineSpan(lineNum + 1, begin, cursor, spans[0].end, spans[0].kind);
        TilesAreSpansFrom(s, spans[1..], spans[0].end, spans[0].end, lineNum + 1);
        assert spans == [spans[0]] + spans[1..];
      }
    }
  }

  /** Those laws have exactly one solution. */
  lemma TilingIsUnique(s: seq<byte>, spans: seq<LineSpan>)
    ensures Tiles(s, spans, 0, 0) <==> spans == SpansOf(s)
  {
    SpansTile(s);
    if Tiles(s, spans, 0, 0) {
      TilesAreSpansFrom(s, spans, 0, 0, 0);
    }
  }

  lemma {:induction false} TileAt(s: seq<byte>, spans: seq<LineSpan>, from: nat, lineNum: nat, k: nat)
    requires Tiles(s, spans, from, lineNum) && k < |spans|
    ensures SpanFits(s, spans[k]) && spans[k].lineNum == lineNum + 1 + k && spans[k].start < spans[k].end
    ensures spans[k].start == if k == 0 then from else spans[k - 1].end
    ensures k == |spans| - 1 ==> spans[k].end == |s|
    decreases k
  {
    HeadTile(s, spans, from, lineNum);
    if k > 0 {
      var rest := spans[1..];
      assert rest[k - 1] == spans[k] && (k > 1 ==> rest[k - 2] == spans[k - 1]);
      TileAt(s, rest, spans[0].end, lineNum + 1, k - 1);
    }
  }

  // ---------- spans as lines ----------

  function LineOf(s: seq<byte>, span: LineSpan): Line
    requires span.start <= span.contentEnd <= span.end <= |s|
  {
    Line(s[span.start..span.contentEnd], s[span.contentEnd..span.end])
  }

  /** The lines s[from..] is divided into by spans that tile it. */
  ghost function LinesOf(s: seq<byte>, spans: seq<LineSpan>, from: nat, lineNum: nat): seq<Line>
    requires Tiles(s, spans, from, lineNum)
    decreases |spans|
  {
    if spans == [] then [] else [LineOf(s, spans[0])] + LinesOf(s, spans[1..], spans[0].end, lineNum + 1)
  }

  ghost function SpanLines(s: seq<byte>): seq<Line> {
    SpansTile(s);
    LinesOf(s, SpansOf(s), 0, 0)
  }

  lemma {:induction false} LinesOfAt(s: seq<byte>, spans: seq<LineSpan>, from: nat, lineNum: nat)
    requires Tiles(s, spans, from, lineNum)
    ensures |LinesOf(s, spans, from, lineNum)| == |spans|
    ensures forall k :: 0 <= k < |spans| ==>
      SpanFits(s, spans[k]) && LinesOf(s, spans, from, lineNum)[k] == LineOf(s, spans[k])
    decreases |spans|
  {
    if spans != [] {
      LinesOfAt(s, spans[1..], spans[0].end, lineNum + 1);
      assert forall k :: 1 <= k < |spans| ==> spans[k] == spans[1..][k - 1];
    }
  }

  lemma {:induction false} LinesOfKeepBytes(s: seq<byte>, spans: seq<LineSpan>, from: nat, lineNum: nat)
    requires from <= |s| && Tiles(s, spans, from, lineNum)
    ensures Serialize(LinesOf(s, spans, from, lineNum)) == s[from..]
    decreases |spans|
  {
    if spans != [] {
      LinesOfKeepBytes(s, spans[1..], spans[0].end, lineNum + 1);
      var span := spans[0];
      assert s[from..] == s[span.start..span.contentEnd] + s[span.contentEnd..span.end] + s[span.end..];
    }
  }

  /** The span division is byte-faithful on every input. */
  lemma SpanLinesKeepBytes(s: seq<byte>)
    ensures Serialize(SpanLines(s)) == s
  {
    SpansTile(s);
    LinesOfKeepBytes(s, SpansOf(s), 0, 0);
    assert s[0..] == s;
  }

  // ---------- where the two line readers agree ----------

  lemma SpanLineFits(s: seq<byte>, span: LineSpan, afterCR: bool)
    requires NoAdjacentCR(s) && SpanFits(s, span) && span.start < span.end
    requires afterCR ==> span.start > 0 && s[span.start - 1] == CR && s[span.start] != LF
    ensures var line := LineOf(s, span);
      && ContentFits(line.content, afterCR) && (afterCR ==> line.content != [])
      && line.terminator == span.kind.Bytes()
    ensures span.kind != TermNone ==> s[span.end - 1] == span.kind.Bytes()[span.kind.Len() - 1]
  {
    var t := s[span.contentEnd..span.end];
    assert t == span.kind.Bytes();
    if span.kind != TermNone {
      assert t[0] == s[span.contentEnd] && t[|t| - 1] == s[span.end - 1];
      assert afterCR ==> s[span.start] != CR;
    }
  }

  lemma {:induction false} SpanLinesWellDivided(s: seq<byte>, spans: seq<LineSpan>, from: nat, lineNum: nat,
                                                afterCR: bool)
    requires NoAdjacentCR(s) && from <= |s| && Tiles(s, spans, from, lineNum)
    requires afterCR ==> from > 0 && s[from - 1] == CR && (from < |s| ==> s[from] != LF)
    ensures WellDivided(LinesOf(s, spans, from, lineNum), afterCR)
    decreases |spans|
  {
    if spans != [] {
      SpanLineFits(s, spans[0], afterCR);
      SpanLinesWellDivided(s, spans[1..], spans[0].end, lineNum + 1, spans[0].kind == TermCR);
      LinesOfAt(s, spans, from, lineNum);
    }
  }

  /** The span scanner and the line reader divide a source into the same lines if and only if it has no two adjacent
      CR bytes. */
  lemma ReadersAgreeIffNoAdjacentCR(s: seq<byte>)
    ensures SpanLines(s) == ReadLines(s) <==> NoAdjacentCR(s)
  {
    SpansTile(s);
    if NoAdjacentCR(s) {
      SpanLinesKeepBytes(s);
      SpanLinesWellDivided(s, SpansOf(s), 0, 0, false);
      DivisionIsUnique(s, SpanLines(s));
    } else {
      LinesOfAt(s, SpansOf(s), 0, 0);
      PlainIffNoAdjacentCR(s, []);
      assert PlainContents(SpanLines(s));
    }
  }
}
