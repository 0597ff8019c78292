/** The stats-only pass decides "would the bytes change?" from counters alone. That decision is exact. */
module WouldChange {
  import opened Bytes
  import opened Lines
  import opened Transform

  function LineEndingsWouldChange(opts: TransformOptions, res: Stats): bool {
    opts.lineEndings.Some? && res.endingsChanged > 0
  }

  function TrimTrailingWouldChange(opts: TransformOptions, res: Stats): bool {
    opts.trimTrailing && res.trailingTrimmed > 0
  }

  function FinalNewlineWouldChange(opts: TransformOptions, res: Stats): bool {
    opts.finalNewline && res.finalNewlineAdded
  }

  function WouldChangeFromStats(opts: TransformOptions, res: Stats): bool {
    LineEndingsWouldChange(opts, res) || TrimTrailingWouldChange(opts, res) || FinalNewlineWouldChange(opts, res)
  }

  /** The counters see every changed line and nothing else. */
  lemma CountersSeeLines(lines: seq<Line>, opts: TransformOptions)
    ensures WouldChangeFromStats(opts, StatsOf(lines, opts)) <==> Transformed(lines, opts) != lines
  {
    var out := Transformed(lines, opts);
    CountIsZero(lines, HasTrailingBlanks());
    if opts.lineEndings.Some? {
      CountIsZero(lines, Misses(TerminatorForTarget(opts.lineEndings.value)));
    }
    if !WouldChangeFromStats(opts, StatsOf(lines, opts)) {
      forall i | 0 <= i < |lines| ensures out[i] == lines[i] {
        var line := lines[i];
      }
    } else if NeedsFinalNewline(lines, opts) {
      assert out[|lines| - 1].terminator != lines[|lines| - 1].terminator;
    } else if TrimTrailingWouldChange(opts, StatsOf(lines, opts)) {
      var i :| 0 <= i < |lines| && HasTrailingBlanks()(lines[i]);
      assert out[i].content != lines[i].content;
    } else {
      var i :| 0 <= i < |lines| && Misses(TerminatorForTarget(opts.lineEndings.value))(lines[i]);
      assert out[i].terminator != lines[i].terminator;
    }
  }

  lemma TransformedTail(lines: seq<Line>, opts: TransformOptions)
    requires |lines| > 1
    ensures Transformed(lines, opts)[1..] == Transformed(lines[1..], opts)
    ensures Transformed(lines, opts)[0] == TransformLine(lines[0], opts)
  {
  }

  /** With a line-ending target every terminator of the result is the target; one line may stay unterminated. */
  lemma TargetTerminators(lines: seq<Line>, opts: TransformOptions, i: nat)
    requires opts.lineEndings.Some? && i < |lines|
    ensures var t := Transformed(lines, opts)[i].terminator;
            t == TerminatorForTarget(opts.lineEndings.value) || (t == [] && lines[i].terminator == [])
  {
  }

  lemma TailsDiffer(head: seq<byte>, xs: seq<byte>, ys: seq<byte>)
    requires xs != ys
    ensures head + xs != head + ys
  {
    assert (head + xs)[|head|..] == xs && (head + ys)[|head|..] == ys;
  }

  /** Where the content was cut, the source has a blank and the result a terminator or nothing. */
  lemma CutContentShows(content: seq<byte>, kept: seq<byte>, sourceTail: seq<byte>, resultTail: seq<byte>)
    requires kept == TrimBlanks(content) && kept != content
    requires resultTail == [] || resultTail[0] == LF || resultTail[0] == CR
    ensures content + sourceTail != kept + resultTail
  {
    var k := |kept|;
    TrimBlanksIsLongest(content);
    assert content == kept + content[k..];
    assert kept + content[k..] + sourceTail == kept + (content[k..] + sourceTail);
    TailsDiffer(kept, content[k..] + sourceTail, resultTail);
  }

  /** With target CR the text after a terminator never starts with LF. */
  lemma NoLeadingLF(lines: seq<Line>, opts: TransformOptions)
    requires WellDivided(lines, false) && opts.lineEndings == Some(TARGET_CR)
    ensures var text := Serialize(Transformed(lines, opts)); text == [] || text[0] != LF
  {
    if lines != [] {
      var out := Transformed(lines, opts);
      TargetTerminators(lines, opts, 0);
      assert out[0].content <= lines[0].content;
      if out[0].content != [] {
        assert Serialize(out)[0] == lines[0].content[0];
      } else if out[0].terminator != [] {
        assert Serialize(out)[0] == out[0].terminator[0];
      }
    }
  }

  /** A replaced terminator shows in its first byte, or right behind the CR that CRLF and a lone CR share. */
  lemma TerminatorsShow(was: seq<byte>, now: seq<byte>, sourceRest: seq<byte>, resultRest: seq<byte>)
    requires IsTerminator(was) && IsTerminator(now) && was != now
    requires was == CR_TERM && sourceRest != [] ==> sourceRest[0] != LF
    requires now == CR_TERM && resultRest != [] ==> resultRest[0] != LF
    ensures was + sourceRest != now + resultRest
  {
    var sourceTail, resultTail := was + sourceRest, now + resultRest;
    if was == CR_TERM && now == CRLF_TERM {
      assert resultTail[1] == LF;
      assert sourceRest != [] ==> sourceTail[1] == sourceRest[0];
    } else if was == CRLF_TERM && now == CR_TERM {
      assert sourceTail[1] == LF;
      assert resultRest != [] ==> resultTail[1] == resultRest[0];
    } else {
      assert sourceTail[0] != resultTail[0];
    }
  }

  lemma NoLFAfterLoneCR(lines: seq<Line>)
    requires WellDivided(lines, true)
    ensures var text := Serialize(lines); text == [] || text[0] != LF
  {
    if lines != [] {
      assert Serialize(lines)[0] == lines[0].content[0];
    }
  }

  lemma ReplacedTerminatorShows(lines: seq<Line>, afterCR: bool, opts: TransformOptions)
    requires lines != [] && WellDivided(lines, afterCR) && lines[0].terminator != []
    requires Transformed(lines, opts)[0].terminator != lines[0].terminator
    ensures var out := Transformed(lines, opts);
            lines[0].terminator + Serialize(lines[1..]) != out[0].terminator + Serialize(out[1..])
  {
    var out := Transformed(lines, opts);
    TargetTerminators(lines, opts, 0);
    if lines[0].terminator == CR_TERM {
      NoLFAfterLoneCR(lines[1..]);
    }
    if |lines| > 1 {
      TransformedTail(lines, opts);
      if out[0].terminator == CR_TERM {
        assert opts.lineEndings.value == TARGET_CR;
        NoLeadingLF(lines[1..], opts);
      }
    }
    TerminatorsShow(lines[0].terminator, out[0].terminator, Serialize(lines[1..]), Serialize(out[1..]));
  }

  lemma ChangedHead(lines: seq<Line>, opts: TransformOptions)
    requires lines != []
    ensures var out := Transformed(lines, opts);
      && (out[0].content == lines[0].content || out[0].content == TrimBlanks(lines[0].content))
      && (out[0].terminator == lines[0].terminator == [] || IsTerminator(out[0].terminator)
          || out[0].terminator == lines[0].terminator)
      && |out| == |lines|
  {
  }

  lemma ChangedHeadShows(lines: seq<Line>, afterCR: bool, opts: TransformOptions)
    requires lines != [] && WellDivided(lines, afterCR)
    requires Transformed(lines, opts)[0] != lines[0]
    ensures Serialize(Transformed(lines, opts)) != Serialize(lines)
  {
    var out := Transformed(lines, opts);
    ChangedHead(lines, opts);
    var sourceTail, resultTail := lines[0].terminator + Serialize(lines[1..]), out[0].terminator + Serialize(out[1..]);
    SerializeHead(lines);
    SerializeHead(out);
    if out[0].content != lines[0].content {
      assert resultTail == [] || resultTail[0] == LF || resultTail[0] == CR;
      CutContentShows(lines[0].content, out[0].content, sourceTail, resultTail);
    } else {
      if lines[0].terminator == [] {
        assert |sourceTail| == 0 < |resultTail|;
      } else {
        ReplacedTerminatorShows(lines, afterCR, opts);
      }
      TailsDiffer(lines[0].content, sourceTail, resultTail);
    }
  }

  lemma SerializeHead(lines: seq<Line>)
    requires lines != []
    ensures Serialize(lines) == lines[0].content + (lines[0].terminator + Serialize(lines[1..]))
  {
  }

  /** Equal bytes mean equal lines: no two changes ever cancel out. */
  lemma {:induction false} ChangesNeverCancel(lines: seq<Line>, afterCR: bool, opts: TransformOptions)
    requires WellDivided(lines, afterCR)
    requires Serialize(Transformed(lines, opts)) == Serialize(lines)
    ensures Transformed(lines, opts) == lines
    decreases |lines|
  {
    var out := Transformed(lines, opts);
    if lines != [] {
      if out[0] != lines[0] {
        ChangedHeadShows(lines, afterCR, opts);
      } else if |lines| > 1 {
        TransformedTail(lines, opts);
        var head := lines[0].content + lines[0].terminator;
        assert Serialize(lines) == head + Serialize(lines[1..]) && Serialize(out) == head + Serialize(out[1..]);
        assert Serialize(lines)[|head|..] == Serialize(lines[1..]);
        ChangesNeverCancel(lines[1..], lines[0].terminator == CR_TERM, opts);
        assert lines == [lines[0]] + lines[1..] && out == [out[0]] + out[1..];
      }
    }
  }

  /** For every source and every option set, the counters say "would change" exactly when the transform's bytes
      differ from the source's. */
  lemma WouldChangeIsExact(s: seq<byte>, opts: TransformOptions)
    ensures WouldChangeFromStats(opts, StatsOf(ReadLines(s), opts)) <==> TransformBytes(s, opts) != s
  {
    var lines := ReadLines(s);
    ReadLinesKeepsBytes(s);
    ReadLinesDivides(s);
    CountersSeeLines(lines, opts);
    if TransformBytes(s, opts) == s {
      ChangesNeverCancel(lines, false, opts);
    }
  }
}
