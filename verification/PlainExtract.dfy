/** Extraction, told by the numbers of the range and the lines of the source alone. */
module PlainExtract {
  import opened Bytes
  import opened Lines
  import opened Spans
  import opened Extract

  /** The first line asked for; an open start means the first of all. */
  ghost function From(lr: LineRange): int {
    if lr.start == 0 then 1 else lr.start
  }

  /** The last of n lines that is in range. */
  ghost function UpTo(lr: LineRange, n: nat): int {
    if lr.end == 0 || lr.end > n then n else lr.end
  }

  /** The lines asked for, as far as there are lines. */
  ghost function Asked(lr: LineRange, lines: seq<Line>): seq<Line> {
    var first := if From(lr) < 1 then 1 else From(lr);
    if first <= UpTo(lr, |lines|) then lines[first - 1..UpTo(lr, |lines|)] else []
  }

  /** What a range is refused for, empty being reported as a given or a normalized range. */
  ghost function Refusal(lr: LineRange, n: nat, empty: RangeError): Option<RangeError> {
    if lr.end != 0 && From(lr) > lr.end then Some(empty)
    else if (if lr.end == 0 then From(lr) else lr.end) > n then Some(RangeExceedsFile(n, From(lr), lr.end))
    else None
  }

  lemma SelectedAsAsked(lr: LineRange, lines: seq<Line>)
    ensures Selected(lr, lines) == Asked(lr, lines)
  {
    SelectedIsWindow(lr, lines);
  }

  lemma ExpectedInLines(lr: LineRange, lines: seq<Line>)
    ensures Expected(lr, lines) ==
            var refusal := Refusal(lr, |lines|, EmptyRange(lr.start, lr.end));
            if refusal.Some? then Refused(refusal.value)
            else Extracted(|Asked(lr, lines)|, Serialize(Asked(lr, lines)))
  {
    SelectedAsAsked(lr, lines);
  }

  /** The same from a seekable source, where a range that asks for no line at all is a missing span. */
  lemma SeekableInLines(lr: LineRange, data: seq<byte>)
    ensures var lines := SpanLines(data);
      var refusal := Refusal(lr, |lines|, EmptyRange(lr.start, lr.end));
      SeekableOutcome(lr, data) ==
      if refusal.Some? then Refused(refusal.value)
      else if Asked(lr, lines) == [] then Refused(MissingSpan)
      else Extracted(|Asked(lr, lines)|, Serialize(Asked(lr, lines)))
  {
    SeekableIsExpected(lr, data);
    ExpectedInLines(lr, SpanLines(data));
  }

  /** The plan: the same refusals, the empty range with its start filled in, and otherwise the bytes of the lines. */
  lemma PlanInLines(lr: LineRange, data: seq<byte>)
    ensures var lines, outcome := SpanLines(data), PlanOutcome(lr, data);
      var refusal := Refusal(lr, |lines|, EmptyRange(From(lr), lr.end));
      if refusal.Some? then outcome == PlanRefused(refusal.value)
      else if Asked(lr, lines) == [] then outcome == PlanRefused(MissingSpan)
      else
        && outcome.Planned? && outcome.plan.linesSelected == |Asked(lr, lines)|
        && outcome.plan.start <= outcome.plan.end <= |data|
        && data[outcome.plan.start..outcome.plan.end] == Serialize(Asked(lr, lines))
  {
    PlanIsExact(lr, data);
    SameLineCount(data);
    SelectedAsAsked(lr, SpanLines(data));
    PlanWithin(lr, data);
  }
}
