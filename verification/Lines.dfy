/** Logical lines with their exact terminators, as the line reader divides a source into them. */
module Lines {
  import opened Bytes
  import opened Streams

  datatype Line = Line(content: seq<byte>, terminator: seq<byte>)

  function Serialize(lines: seq<Line>): seq<byte> {
    if lines == [] then [] else lines[0].content + lines[0].terminator + Serialize(lines[1..])
  }

  /** The lines read from s when content has already been collected for the current one. The byte after a lone CR
      is content whatever it is, even another CR. */
  function ReadLinesWith(s: seq<byte>, content: seq<byte>): seq<Line>
    decreases |s|
  {
    if s == [] then
      if content == [] then [] else [Line(content, [])]
    else if s[0] == LF then
      [Line(content, LF_TERM)] + ReadLinesWith(s[1..], [])
    else if s[0] == CR then
      if |s| == 1 then
        [Line(content, CR_TERM)]
      else if s[1] == LF then
        [Line(content, CRLF_TERM)] + ReadLinesWith(s[2..], [])
      else
        [Line(content, CR_TERM)] + ReadLinesWith(s[2..], [s[1]])
    else
      ReadLinesWith(s[1..], content + [s[0]])
  }

  function ReadLines(s: seq<byte>): seq<Line> {
    ReadLinesWith(s, [])
  }

  // ---------- what a division is, said without the reader ----------

  predicate IsTerminator(t: seq<byte>) {
    t == LF_TERM || t == CR_TERM || t == CRLF_TERM
  }

  /** No LF at all; a CR only as the first byte of a line that follows a lone CR. */
  ghost predicate ContentFits(content: seq<byte>, afterCR: bool) {
    forall i :: 0 <= i < |content| ==> content[i] != LF && (content[i] == CR ==> i == 0 && afterCR)
  }

  /** afterCR: the line before these ended in a lone CR. */
  ghost predicate WellDivided(lines: seq<Line>, afterCR: bool)
    decreases |lines|
  {
    lines == [] ||
    (var line := lines[0];
     && ContentFits(line.content, afterCR)
     && (afterCR ==> line.content != [])
     && (if line.terminator == [] then |lines| == 1 && line.content != [] else IsTerminator(line.terminator))
     && WellDivided(lines[1..], line.terminator == CR_TERM))
  }

  lemma OneLineSpells(line: Line, rest: seq<Line>, text: seq<byte>)
    requires Serialize(rest) == text
    ensures Serialize([line] + rest) == line.content + (line.terminator + text)
  {
    assert ([line] + rest)[1..] == rest;
  }

  /** Byte-faithful: nothing is lost, added or reordered, on every input. */
  lemma {:induction false} ReadLinesWithKeepsBytes(s: seq<byte>, content: seq<byte>)
    ensures Serialize(ReadLinesWith(s, content)) == content + s
    decreases |s|
  {
    if s == [] {
    } else if s[0] == LF {
      ReadLinesWithKeepsBytes(s[1..], []);
      OneLineSpells(Line(content, LF_TERM), ReadLinesWith(s[1..], []), s[1..]);
    } else if s[0] == CR {
      if |s| == 1 {
      } else if s[1] == LF {
        ReadLinesWithKeepsBytes(s[2..], []);
        OneLineSpells(Line(content, CRLF_TERM), ReadLinesWith(s[2..], []), s[2..]);
        assert s == CRLF_TERM + s[2..];
      } else {
        ReadLinesWithKeepsBytes(s[2..], [s[1]]);
        OneLineSpells(Line(content, CR_TERM), ReadLinesWith(s[2..], [s[1]]), [s[1]] + s[2..]);
        assert s == CR_TERM + ([s[1]] + s[2..]);
      }
    } else {
      ReadLinesWithKeepsBytes(s[1..], content + [s[0]]);
    }
  }

  lemma ReadLinesKeepsBytes(s: seq<byte>)
    ensures Serialize(ReadLines(s)) == s
  {
    ReadLinesWithKeepsBytes(s, []);
  }

  lemma {:induction false} ReadLinesWithDivides(s: seq<byte>, content: seq<byte>, afterCR: bool)
    requires ContentFits(content, afterCR) && (afterCR ==> content != [])
    ensures WellDivided(ReadLinesWith(s, content), afterCR)
    decreases |s|
  {
    if s == [] {
    } else if s[0] == LF {
      ReadLinesWithDivides(s[1..], [], false);
    } else if s[0] == CR {
      if |s| == 1 {
      } else if s[1] == LF {
        ReadLinesWithDivides(s[2..], [], false);
      } else {
        ReadLinesWithDivides(s[2..], [s[1]], true);
      }
    } else {
      ReadLinesWithDivides(s[1..], content + [s[0]], afterCR);
    }
  }

  lemma ReadLinesDivides(s: seq<byte>)
    ensures WellDivided(ReadLines(s), false)
  {
    ReadLinesWithDivides(s, [], false);
  }

  // ---------- round trip: the reader inverts Serialize on every well-divided list ----------

  lemma {:induction false} ReadPlainRun(run: seq<byte>, rest: seq<byte>, content: seq<byte>)
    requires forall i :: 0 <= i < |run| ==> run[i] != LF && run[i] != CR
    ensures ReadLinesWith(run + rest, content) == ReadLinesWith(rest, content + run)
    decreases |run|
  {
    if run == [] {
      assert run + rest == rest && content + run == content;
    } else {
      assert (run + rest)[1..] == run[1..] + rest;
      assert content + [run[0]] + run[1..] == content + run;
      ReadPlainRun(run[1..], rest, content + [run[0]]);
    }
  }

  lemma {:induction false} RereadAfterContent(lines: seq<Line>, afterCR: bool)
    requires lines != [] && WellDivided(lines, afterCR)
    ensures ReadLinesWith(lines[0].terminator + Serialize(lines[1..]), lines[0].content) == lines
    decreases |lines|, 0
  {
    var term, rest := lines[0].terminator, lines[1..];
    var tail := term + Serialize(rest);
    assert lines == [lines[0]] + rest;
    if term == LF_TERM {
      assert tail[1..] == Serialize(rest);
      RereadSerialized(rest);
    } else if term == CRLF_TERM {
      assert tail[2..] == Serialize(rest);
      RereadSerialized(rest);
    } else if term == CR_TERM && rest != [] {
      var next := rest[0].content;
      assert tail == [CR, next[0]] + (next[1..] + (rest[0].terminator + Serialize(rest[1..])));
      ReadPlainRun(next[1..], rest[0].terminator + Serialize(rest[1..]), [next[0]]);
      assert [next[0]] + next[1..] == next;
      RereadAfterContent(rest, true);
    }
  }

  lemma {:induction false} RereadSerialized(lines: seq<Line>)
    requires WellDivided(lines, false)
    ensures ReadLines(Serialize(lines)) == lines
    decreases |lines|, 1
  {
    if lines != [] {
      var tail := lines[0].terminator + Serialize(lines[1..]);
      assert Serialize(lines) == lines[0].content + tail;
      ReadPlainRun(lines[0].content, tail, []);
      assert [] + lines[0].content == lines[0].content;
      RereadAfterContent(lines, false);
    }
  }

  /** ReadLines(s) is the only well-divided list of lines that spells s. */
  lemma DivisionIsUnique(s: seq<byte>, lines: seq<Line>)
    ensures WellDivided(lines, false) && Serialize(lines) == s <==> lines == ReadLines(s)
  {
    ReadLinesKeepsBytes(s);
    ReadLinesDivides(s);
    if WellDivided(lines, false) && Serialize(lines) == s {
      RereadSerialized(lines);
    }
  }

  // ---------- adjacent CRs, seen in the lines ----------

  ghost predicate PlainContents(lines: seq<Line>) {
    forall i, k :: 0 <= i < |lines| && 0 <= k < |lines[i].content| ==> lines[i].content[k] != CR
  }

  lemma {:induction false} PlainIffNoAdjacentCR(s: seq<byte>, content: seq<byte>)
    ensures PlainContents(ReadLinesWith(s, content)) <==> CR !in content && NoAdjacentCR(s)
    decreases |s|
  {
    var lines := ReadLinesWith(s, content);
    if s == [] {
      assert content != [] ==> lines[0].content == content;
    } else if s[0] == CR || s[0] == LF {
      assert lines[0].content == content;
      PlainTail(lines);
      if |s| > 1 && s[0] == CR {
        var next := if s[1] == LF then [] else [s[1]];
        PlainIffNoAdjacentCR(s[2..], next);
        NoAdjacentCRTail(s);
        NoAdjacentCRTail(s[1..]);
        assert s[1..][1..] == s[2..];
        assert lines[1..] == ReadLinesWith(s[2..], next);
      } else if s[0] == LF {
        PlainIffNoAdjacentCR(s[1..], []);
        NoAdjacentCRTail(s);
      }
    } else {
      PlainIffNoAdjacentCR(s[1..], content + [s[0]]);
      NoAdjacentCRTail(s);
    }
  }

  lemma NoAdjacentCRTail(s: seq<byte>)
    requires s != []
    ensures NoAdjacentCR(s) <==> NoAdjacentCR(s[1..]) && (|s| > 1 && s[0] == CR ==> s[1] != CR)
  {
    assert forall i :: 1 <= i < |s| ==> s[i] == s[1..][i - 1];
    if NoAdjacentCR(s) {
      assert forall i :: 0 <= i < |s[1..]| ==> s[1..][i] == s[i + 1];
    }
  }

  lemma PlainTail(lines: seq<Line>)
    requires lines != []
    ensures PlainContents(lines) <==> CR !in lines[0].content && PlainContents(lines[1..])
  {
    assert forall i :: 1 <= i < |lines| ==> lines[i] == lines[1..][i - 1];
    if PlainContents(lines) {
      assert forall i :: 0 <= i < |lines[1..]| ==> lines[1..][i] == lines[i + 1];
    }
  }

  lemma {:induction false} SerializeAppend(xs: seq<Line>, ys: seq<Line>)
    ensures Serialize(xs + ys) == Serialize(xs) + Serialize(ys)
    decreases |xs|
  {
    if xs == [] {
      assert xs + ys == ys;
    } else {
      SerializeAppend(xs[1..], ys);
      assert (xs + ys)[1..] == xs[1..] + ys;
    }
  }

  lemma SerializeSnoc(lines: seq<Line>, last: Line)
    ensures Serialize(lines + [last]) == Serialize(lines) + last.content + last.terminator
  {
    SerializeAppend(lines, [last]);
    assert Serialize([last]) == last.content + last.terminator + Serialize([]);
  }

  // ---------- the reader itself ----------

  datatype LineRead = GotLine(line: Line) | NoMoreLines | ReadFault

  /** The byte-at-a-time line reader. Where the source calls back with a line, Next hands the line over, and the next
      call goes on behind that point. */
  class LineStream {
    const br: BufReader
    var content: seq<byte>

    constructor (br: BufReader)
      ensures this.br == br && content == []
    {
      this.br := br;
      this.content := [];
    }

    /** The lines still to come. */
    ghost function Pending(): seq<Line>
      requires br.Valid()
      reads this, br, br.src
    {
      ReadLinesWith(br.Remaining(), content)
    }

    method CommitLine(terminator: seq<byte>) returns (line: Line)
      modifies this
      ensures line == Line(old(content), terminator) && content == []
    {
      line := Line(content, terminator);
      content := [];
    }

    /** Reads up to the end of the next line. */
    method Next() returns (r: LineRead)
      requires br.Valid()
      modifies this, br, br.src
      ensures br.Valid()
      ensures r.GotLine? ==> old(Pending()) == [r.line] + Pending()
      ensures r.NoMoreLines? ==> old(Pending()) == [] && Pending() == []
      ensures r.ReadFault? ==> br.src.Unsteady()
    {
      while true
        invariant br.Valid() && Pending() == old(Pending())
        decreases |br.Remaining()|
      {
        var b := br.ReadByte();
        if b.Fault? {
          return ReadFault;
        }
        if b.End? {
          r := FlushTrailing();
          return;
        }
        if b.b == LF {
          var line := CommitLine(LF_TERM);
          return GotLine(line);
        }
        if b.b == CR {
          r := HandleCarriageReturn();
          return;
        }
        content := content + [b.b];
      }
    }

    method HandleCarriageReturn() returns (r: LineRead)
      requires br.Valid()
      modifies this, br, br.src
      ensures br.Valid()
      ensures r.GotLine? ==> old(ReadLinesWith([CR] + br.Remaining(), content)) == [r.line] + Pending()
      ensures r.ReadFault? ==> br.src.Unsteady()
      ensures !r.NoMoreLines?
    {
      ghost var source := [CR] + br.Remaining();
      var next := br.ReadByte();
      if next.Fault? {
        return ReadFault;
      }
      assert next.Got? ==> source == [CR, next.b] + br.Remaining();
      assert next.Got? ==> source[2..] == br.Remaining();
      var line := CommitLine(if next.Got? && next.b == LF then CRLF_TERM else CR_TERM);
      if next.Got? && next.b != LF {
        content := [next.b];
      }
      r := GotLine(line);
    }

    method FlushTrailing() returns (r: LineRead)
      modifies this
      ensures content == []
      ensures r == if old(content) == [] then NoMoreLines else GotLine(Line(old(content), []))
    {
      if content == [] {
        return NoMoreLines;
      }
      var line := CommitLine([]);
      r := GotLine(line);
    }
  }

  datatype Outcome<S> = Finished(result: Step<S>) | ReadError(state: S)

  /** Runs a callback over the lines of src: to the end of the source, the callback's first error, or a read fault,
      before which it has been fed some of the lines, from the first on. */
  method ForEachLineFrom<S>(src: Source, onLine: (S, Line) -> Step<S>, init: S)
    returns (outcome: Outcome<S>, ghost fed: seq<Line>)
    requires src.off <= |src.data|
    modifies src
    ensures outcome.Finished? ==> outcome.result == Feed(onLine, init, ReadLines(old(src.data[src.off..])))
    ensures outcome.ReadError? ==> src.Unsteady() && fed <= ReadLines(old(src.data[src.off..]))
    ensures outcome.ReadError? ==> Feed(onLine, init, fed) == Continue(outcome.state)
  {
    var br := new BufReader(src);
    var stream := new LineStream(br);
    var state := init;
    ghost var lines := stream.Pending();
    fed := [];
    while true
      invariant br.Valid() && lines == fed + stream.Pending()
      invariant Feed(onLine, init, fed) == Continue(state)
      decreases |stream.Pending()|
    {
      var r := stream.Next();
      match r
      case ReadFault => return ReadError(state), fed;
      case NoMoreLines =>
        assert fed == lines;
        return Finished(Continue(state)), fed;
      case GotLine(line) =>
        assert lines == fed + [line] + stream.Pending();
        FedOneMore(onLine, init, fed, line, lines);
        var step := onLine(state, line);
        fed, state := fed + [line], step.state;
        if step.Halt? {
          return Finished(Halt(state)), fed;
        }
    }
  }

  method ReadLinesFrom(src: Source) returns (lines: Option<seq<Line>>)
    requires src.off <= |src.data|
    modifies src
    ensures lines.Some? ==> lines.value == ReadLines(old(src.data[src.off..]))
    ensures lines == None ==> src.Unsteady()
  {
    var br := new BufReader(src);
    var stream := new LineStream(br);
    var done: seq<Line> := [];
    ghost var all := stream.Pending();
    while true
      invariant br.Valid() && all == done + stream.Pending()
      decreases |stream.Pending()|
    {
      var r := stream.Next();
      match r
      case ReadFault => return None;
      case NoMoreLines => return Some(done);
      case GotLine(line) => done := done + [line];
    }
  }

  /** Writes the line's content and then, when there is one, its terminator. */
  method WriteLine(w: Sink, line: Line) returns (ok: bool)
    modifies w
    ensures old(w.data) <= w.data <= old(w.data) + (line.content + line.terminator)
    ensures ok ==> w.data == old(w.data) + (line.content + line.terminator)
    ensures w.faulted == (old(w.faulted) || !ok)
  {
    ok := WriteFull(w, line.content);
    if ok && |line.terminator| > 0 {
      ok := WriteFull(w, line.terminator);
    }
  }

  /** Writes the lines one by one; a failed write leaves some prefix of their bytes. */
  method WriteLinesTo(w: Sink, lines: seq<Line>) returns (ok: bool)
    modifies w
    ensures ok ==> w.data == old(w.data) + Serialize(lines)
    ensures old(w.data) <= w.data <= old(w.data) + Serialize(lines)
    ensures w.faulted == (old(w.faulted) || !ok)
  {
    for i := 0 to |lines|
      invariant w.data == old(w.data) + Serialize(lines[..i]) && w.faulted == old(w.faulted)
    {
      LineFollows(lines, i);
      FrontIsPrefix(lines, i + 1);
      ok := WriteLine(w, lines[i]);
      if !ok {
        var line := lines[i].content + lines[i].terminator;
        PrefixBehind(old(w.data), w.data, Serialize(lines[..i]), line, Serialize(lines));
        return;
      }
    }
    assert lines[..|lines|] == lines;
    ok := true;
  }

  lemma LineFollows(lines: seq<Line>, i: nat)
    requires i < |lines|
    ensures Serialize(lines[..i + 1]) == Serialize(lines[..i]) + (lines[i].content + lines[i].terminator)
  {
    assert lines[..i + 1] == lines[..i] + [lines[i]];
    SerializeSnoc(lines[..i], lines[i]);
  }

  lemma FrontIsPrefix(lines: seq<Line>, n: nat)
    requires n <= |lines|
    ensures Serialize(lines[..n]) <= Serialize(lines)
  {
    assert lines == lines[..n] + lines[n..];
    SerializeAppend(lines[..n], lines[n..]);
  }

  lemma PrefixBehind(before: seq<byte>, data: seq<byte>, front: seq<byte>, next: seq<byte>, all: seq<byte>)
    requires before + front <= data <= before + front + next && front + next <= all
    ensures before <= data <= before + all
  {
    assert before + front + next == before + (front + next);
  }
}
