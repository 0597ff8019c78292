/** The in-memory transform: what each option does to a list of lines, and the counters that report it. */
module Transform {
  import opened Bytes
  import opened Lines

  const TARGET_LF := 0
  const TARGET_CRLF := 1
  const TARGET_CR := 2

  /** lineEndings is any integer, as in the source: one that names no target behaves like LF. */
  datatype TransformOptions = TransformOptions(lineEndings: Option<int>, trimTrailing: bool, finalNewline: bool)
  {
    predicate Active() {
      lineEndings.Some? || trimTrailing || finalNewline
    }
  }

  datatype Stats = Stats(
    endingsChanged: nat,
    lfFound: nat, lfConverted: nat,
    crFound: nat, crConverted: nat,
    crlfFound: nat, crlfConverted: nat,
    trailingTrimmed: nat,
    finalNewlineAdded: bool)

  function TerminatorForTarget(target: int): seq<byte> {
    if target == TARGET_CRLF then CRLF_TERM else if target == TARGET_CR then CR_TERM else LF_TERM
  }

  function DefaultFinalTerminator(opts: TransformOptions): seq<byte> {
    if opts.lineEndings.Some? then TerminatorForTarget(opts.lineEndings.value) else LF_TERM
  }

  // ---------- the specification ----------

  /** The longest prefix that does not end in a blank. */
  function TrimBlanks(content: seq<byte>): (kept: seq<byte>)
    ensures kept <= content
  {
    if content != [] && IsBlank(content[|content| - 1]) then TrimBlanks(content[..|content| - 1]) else content
  }

  lemma {:induction false} TrimBlanksIsLongest(content: seq<byte>)
    ensures var kept := TrimBlanks(content);
      && (kept != [] ==> !IsBlank(kept[|kept| - 1]))
      && forall i :: |kept| <= i < |content| ==> IsBlank(content[i])
    decreases |content|
  {
    if content != [] && IsBlank(content[|content| - 1]) {
      TrimBlanksIsLongest(content[..|content| - 1]);
    }
  }

  function TransformLine(line: Line, opts: TransformOptions): Line {
    Line(
      if opts.trimTrailing then TrimBlanks(line.content) else line.content,
      if opts.lineEndings.Some? && line.terminator != [] then TerminatorForTarget(opts.lineEndings.value)
      else line.terminator)
  }

  function Mapped(lines: seq<Line>, opts: TransformOptions): seq<Line> {
    seq(|lines|, i requires 0 <= i < |lines| => TransformLine(lines[i], opts))
  }

  predicate NeedsFinalNewline(lines: seq<Line>, opts: TransformOptions) {
    opts.finalNewline && lines != [] && lines[|lines| - 1].terminator == []
  }

  function Transformed(lines: seq<Line>, opts: TransformOptions): seq<Line> {
    var mapped := Mapped(lines, opts);
    if NeedsFinalNewline(lines, opts) then
      mapped[|lines| - 1 := mapped[|lines| - 1].(terminator := DefaultFinalTerminator(opts))]
    else mapped
  }

  /** The bytes the transform makes of a source. */
  function TransformBytes(s: seq<byte>, opts: TransformOptions): seq<byte> {
    Serialize(Transformed(ReadLines(s), opts))
  }

  /** A final newline is all that the option adds to the mapped lines. */
  lemma FinalNewlineComesLast(lines: seq<Line>, opts: TransformOptions)
    ensures Serialize(Transformed(lines, opts)) == Serialize(Mapped(lines, opts)) +
            if NeedsFinalNewline(lines, opts) then DefaultFinalTerminator(opts) else []
  {
    if NeedsFinalNewline(lines, opts) {
      var n := |lines| - 1;
      var mapped, out := Mapped(lines, opts), Transformed(lines, opts);
      assert mapped == mapped[..n] + [mapped[n]] && out == mapped[..n] + [out[n]];
      SerializeSnoc(mapped[..n], mapped[n]);
      SerializeSnoc(mapped[..n], out[n]);
    }
  }

  function Count(lines: seq<Line>, p: Line -> bool): nat {
    if lines == [] then 0 else (if p(lines[0]) then 1 else 0) + Count(lines[1..], p)
  }

  function EndsWith(terminator: seq<byte>): Line -> bool {
    (line: Line) => line.terminator == terminator
  }

  function Misses(want: seq<byte>): Line -> bool {
    (line: Line) => line.terminator != [] && line.terminator != want
  }

  function HasTrailingBlanks(): Line -> bool {
    (line: Line) => TrimBlanks(line.content) != line.content
  }

  function Converted(lines: seq<Line>, kind: seq<byte>, want: seq<byte>): nat {
    if kind == want then 0 else Count(lines, EndsWith(kind))
  }

  function StatsOf(lines: seq<Line>, opts: TransformOptions): Stats {
    var trimmed := if opts.trimTrailing then Count(lines, HasTrailingBlanks()) else 0;
    var added := NeedsFinalNewline(lines, opts);
    match opts.lineEndings
    case None => Stats(0, 0, 0, 0, 0, 0, 0, trimmed, added)
    case Some(target) =>
      var want := TerminatorForTarget(target);
      Stats(Count(lines, Misses(want)),
            Count(lines, EndsWith(LF_TERM)), Converted(lines, LF_TERM, want),
            Count(lines, EndsWith(CR_TERM)), Converted(lines, CR_TERM, want),
            Count(lines, EndsWith(CRLF_TERM)), Converted(lines, CRLF_TERM, want),
            trimmed, added)
  }

  lemma {:induction false} CountAppend(xs: seq<Line>, ys: seq<Line>, p: Line -> bool)
    ensures Count(xs + ys, p) == Count(xs, p) + Count(ys, p)
    decreases |xs|
  {
    if xs == [] {
      assert xs + ys == ys;
    } else {
      assert (xs + ys)[1..] == xs[1..] + ys;
      CountAppend(xs[1..], ys, p);
    }
  }

  lemma CountSnoc(lines: seq<Line>, last: Line, p: Line -> bool)
    ensures Count(lines + [last], p) == Count(lines, p) + (if p(last) then 1 else 0)
  {
    CountAppend(lines, [last], p);
    assert Count([last], p) == (if p(last) then 1 else 0) + Count([], p);
  }

  lemma {:induction false} CountIsZero(lines: seq<Line>, p: Line -> bool)
    ensures Count(lines, p) == 0 <==> forall i :: 0 <= i < |lines| ==> !p(lines[i])
    decreases |lines|
  {
    if lines != [] {
      CountIsZero(lines[1..], p);
      assert forall i :: 0 <= i < |lines| - 1 ==> lines[1..][i] == lines[i + 1];
      assert forall i :: 1 <= i < |lines| ==> lines[i] == lines[1..][i - 1];
    }
  }

  // ---------- the counters of the line-ending scan ----------

  class LineEndingScanStats {
    var lfFound: nat
    var lfConverted: nat
    var crFound: nat
    var crConverted: nat
    var crlfFound: nat
    var crlfConverted: nat

    constructor ()
      ensures forall want :: Counts([], want)
    {
      lfFound, lfConverted, crFound, crConverted, crlfFound, crlfConverted := 0, 0, 0, 0, 0, 0;
    }

    /** The counters are those of exactly these lines. */
    ghost predicate Counts(lines: seq<Line>, want: seq<byte>)
      reads this
    {
      && lfFound == Count(lines, EndsWith(LF_TERM)) && lfConverted == Converted(lines, LF_TERM, want)
      && crFound == Count(lines, EndsWith(CR_TERM)) && crConverted == Converted(lines, CR_TERM, want)
      && crlfFound == Count(lines, EndsWith(CRLF_TERM)) && crlfConverted == Converted(lines, CRLF_TERM, want)
    }

    /** Accounts for one more line. A terminator of no known kind is not counted. */
    method Observe(ghost before: seq<Line>, ghost line: Line, terminator: seq<byte>, want: seq<byte>)
      requires Counts(before, want) && line.terminator == terminator
      modifies this
      ensures Counts(before + [line], want)
    {
      CountSnoc(before, line, EndsWith(LF_TERM));
      CountSnoc(before, line, EndsWith(CR_TERM));
      CountSnoc(before, line, EndsWith(CRLF_TERM));
      var miss := if terminator != want then 1 else 0;
      if terminator == CRLF_TERM {
        crlfFound, crlfConverted := crlfFound + 1, crlfConverted + miss;
      } else if terminator == LF_TERM {
        lfFound, lfConverted := lfFound + 1, lfConverted + miss;
      } else if terminator == CR_TERM {
        crFound, crConverted := crFound + 1, crConverted + miss;
      }
    }
  }

  // ---------- the code over a slice of lines ----------

  method TrimTrailingSpacesTabs(content: seq<byte>) returns (kept: seq<byte>, did: bool)
    ensures kept == TrimBlanks(content) && did == (kept != content)
  {
    var end := |content|;
    assert content[..end] == content;
    while end > 0 && IsBlank(content[end - 1])
      invariant 0 <= end <= |content| && TrimBlanks(content[..end]) == TrimBlanks(content)
    {
      assert content[..end][..end - 1] == content[..end - 1];
      end := end - 1;
    }
    kept, did := content[..end], end != |content|;
  }

  method ApplyLineEndings(out: array<Line>, target: int) returns (changed: nat)
    modifies out
    ensures changed == old(Count(out[..], Misses(TerminatorForTarget(target))))
    ensures forall i :: 0 <= i < out.Length ==>
      out[i] == old(if out[i].terminator == [] then out[i] else out[i].(terminator := TerminatorForTarget(target)))
  {
    var want := TerminatorForTarget(target);
    changed := 0;
    var i := 0;
    ghost var was := out[..];
    while i < out.Length
      invariant 0 <= i <= out.Length && changed == Count(was[..i], Misses(want))
      invariant forall k :: i <= k < out.Length ==> out[k] == was[k]
      invariant forall k :: 0 <= k < i ==>
        out[k] == if was[k].terminator == [] then was[k] else was[k].(terminator := want)
    {
      CountSnoc(was[..i], was[i], Misses(want));
      assert was[..i + 1] == was[..i] + [was[i]];
      if out[i].terminator != [] {
        if out[i].terminator != want {
          changed := changed + 1;
        }
        out[i] := out[i].(terminator := want);
      }
      i := i + 1;
    }
    assert was[..i] == was;
  }

  method ApplyTrimTrailing(out: array<Line>) returns (trimmed: nat)
    modifies out
    ensures trimmed == old(Count(out[..], HasTrailingBlanks()))
    ensures forall i :: 0 <= i < out.Length ==> out[i] == old(out[i].(content := TrimBlanks(out[i].content)))
  {
    trimmed := 0;
    var i := 0;
    ghost var was := out[..];
    while i < out.Length
      invariant 0 <= i <= out.Length && trimmed == Count(was[..i], HasTrailingBlanks())
      invariant forall k :: i <= k < out.Length ==> out[k] == was[k]
      invariant forall k :: 0 <= k < i ==> out[k] == was[k].(content := TrimBlanks(was[k].content))
    {
      CountSnoc(was[..i], was[i], HasTrailingBlanks());
      assert was[..i + 1] == was[..i] + [was[i]];
      var kept, did := TrimTrailingSpacesTabs(out[i].content);
      if did {
        trimmed := trimmed + 1;
        out[i] := out[i].(content := kept);
      }
      i := i + 1;
    }
    assert was[..i] == was;
  }

  method ApplyFinalNewline(out: array<Line>, opts: TransformOptions) returns (added: bool)
    modifies out
    ensures added == old(out.Length > 0 && out[out.Length - 1].terminator == [])
    ensures out[..] == old(if out.Length > 0 && out[out.Length - 1].terminator == [] then
      out[..][out.Length - 1 := out[out.Length - 1].(terminator := DefaultFinalTerminator(opts))] else out[..])
  {
    if out.Length == 0 || |out[out.Length - 1].terminator| > 0 {
      return false;
    }
    out[out.Length - 1] := out[out.Length - 1].(terminator := DefaultFinalTerminator(opts));
    added := true;
  }

  method LineEndingStats(lines: seq<Line>, target: int) returns (scan: LineEndingScanStats)
    ensures fresh(scan) && scan.Counts(lines, TerminatorForTarget(target))
  {
    scan := new LineEndingScanStats();
    var want := TerminatorForTarget(target);
    var i := 0;
    while i < |lines|
      invariant 0 <= i <= |lines| && fresh(scan) && scan.Counts(lines[..i], want)
    {
      assert lines[..i + 1] == lines[..i] + [lines[i]];
      scan.Observe(lines[..i], lines[i], lines[i].terminator, want);
      i := i + 1;
    }
    assert lines[..i] == lines;
  }

  /** skipped: no option asked for anything, and the lines come back as they are. */
  method TransformLines(lines: seq<Line>, opts: TransformOptions)
    returns (out: seq<Line>, stats: Stats, skipped: bool)
    ensures skipped == !opts.Active()
    ensures out == Transformed(lines, opts) && stats == StatsOf(lines, opts)
  {
    stats := Stats(0, 0, 0, 0, 0, 0, 0, 0, false);
    if !opts.Active() {
      assert Mapped(lines, opts) == lines;
      return lines, stats, true;
    }
    var a := new Line[|lines|](i requires 0 <= i < |lines| => lines[i]);
    assert a[..] == lines;
    if opts.lineEndings.Some? {
      var target := opts.lineEndings.value;
      var scan := LineEndingStats(lines, target);
      var changed := ApplyLineEndings(a, target);
      stats := Stats(changed, scan.lfFound, scan.lfConverted, scan.crFound, scan.crConverted,
                     scan.crlfFound, scan.crlfConverted, 0, false);
    }
    if opts.trimTrailing {
      CountSameContents(a[..], lines);
      var trimmed := ApplyTrimTrailing(a);
      stats := stats.(trailingTrimmed := trimmed);
    }
    assert a[..] == Mapped(lines, opts);
    if opts.finalNewline {
      var added := ApplyFinalNewline(a, opts);
      stats := stats.(finalNewlineAdded := added);
    }
    out, skipped := a[..], false;
  }

  lemma {:induction false} CountSameContents(xs: seq<Line>, ys: seq<Line>)
    requires |xs| == |ys| && forall i :: 0 <= i < |xs| ==> xs[i].content == ys[i].content
    ensures Count(xs, HasTrailingBlanks()) == Count(ys, HasTrailingBlanks())
    decreases |xs|
  {
    if xs != [] {
      CountSameContents(xs[1..], ys[1..]);
    }
  }
}
