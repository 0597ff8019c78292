/** The line-span scanner: a sliding window over a seekable stream that its callbacks share. */
module Scanner {
  import opened Bytes
  import opened Streams
  import opened Spans

  const DEFAULT_CHUNK_SIZE: nat := 64 * 1024
  const BOUNDED_CHUNK_SIZE: nat := 8 * 1024

  datatype SpanRead = Found(span: LineSpan) | NoMoreSpans | Broken

  /** The scanner. Where the source calls back with a line, NextSpan hands its span over; the callback is whatever the
      caller does before LineDone, on the shared stream too when it saves and restores the offset. */
  class ScannerState {
    const src: Source

    var buf: array<byte>
    var base: nat
    var fill: nat
    var cursor: nat
    var lineBegin: nat
    var lineNum: nat
    var streamEOF: bool

    ghost var emitted: seq<LineSpan>

    constructor (src: Source, size: nat)
      requires size > 0 && src.off == 0 && |src.data| <= MAX_INT64
      ensures this.src == src && fresh(buf) && emitted == []
      ensures Valid() && Tracks()
    {
      this.src := src;
      this.buf := new byte[size](i => 0);
      this.base, this.fill, this.cursor, this.lineBegin, this.lineNum := 0, 0, 0, 0, 0;
      this.streamEOF := false;
      this.emitted := [];
    }

    /** The window holds the source at base. */
    ghost predicate HoldsWindow()
      reads this, buf
    {
      && |src.data| <= MAX_INT64 && buf.Length > 0 && fill <= buf.Length
      && base <= cursor <= base + fill <= |src.data|
      && buf[..fill] == src.data[base..base + fill]
      && (streamEOF ==> base + fill == |src.data|)
    }

    /** And the stream stands right behind the window. */
    ghost predicate Valid()
      reads this, buf, src
    {
      HoldsWindow() && src.off == base + fill
    }

    /** What was handed over and what is still to come make up the spans of the source. */
    ghost predicate Tracks()
      reads this
    {
      && lineBegin <= cursor <= |src.data|
      && SpansOf(src.data) == emitted + SpansFrom(src.data, lineBegin, cursor, lineNum)
    }

    /** The next span of the source is with the caller. */
    ghost predicate HandedOver(span: LineSpan)
      reads this
    {
      && span.lineNum == lineNum && span.start == lineBegin && span.contentEnd == cursor
      && span.end == cursor + span.kind.Len() <= base + fill && span.end <= |src.data|
      && SpansOf(src.data) == emitted + [span] + SpansFrom(src.data, span.end, span.end, span.lineNum)
    }

    // ---------- the window ----------

    /** Slides the window up to the cursor, in place. */
    method DropBufferedBeforeCursor()
      requires Valid()
      modifies this`base, this`fill, buf
      ensures Valid() && base == cursor && base + fill == old(base + fill)
    {
      if cursor <= base {
        return;
      }
      var delta := cursor - base;
      assert delta <= fill;
      ghost var window := buf[..fill];
      forall i | 0 <= i < fill - delta {
        buf[i] := buf[i + delta];
      }
      assert buf[..fill - delta] == window[delta..];
      fill := fill - delta;
      base := base + delta;
    }

    method GrowBuf()
      requires Valid()
      modifies this`buf
      ensures Valid() && fresh(buf) && buf.Length > old(buf.Length)
    {
      var size := buf.Length * 2;
      if size < DEFAULT_CHUNK_SIZE {
        size := DEFAULT_CHUNK_SIZE;
      }
      ghost var window := buf[..fill];
      var grown := new byte[size](i => 0);
      forall i | 0 <= i < fill {
        grown[i] := buf[i];
      }
      assert grown[..fill] == window;
      buf := grown;
    }

    /** Room behind the window: slides, then grows, only as far as needed. */
    method EnsureTailCapacity() returns (free: nat)
      requires Valid()
      modifies this`base, this`fill, this`buf, buf
      ensures Valid() && 0 < free == buf.Length - fill
      ensures buf == old(buf) || fresh(buf)
      ensures base + fill == old(base + fill)
    {
      if buf.Length == fill {
        DropBufferedBeforeCursor();
      }
      if buf.Length == fill {
        GrowBuf();
      }
      free := buf.Length - fill;
    }

    /** The bytes of a read, stored behind the window. */
    method StoreTail(chunk: seq<byte>)
      requires fill + |chunk| <= buf.Length && !streamEOF
      requires |src.data| <= MAX_INT64 && base <= cursor <= base + fill <= |src.data|
      requires buf[..fill] == src.data[base..base + fill]
      requires base + fill + |chunk| == src.off <= |src.data| && chunk == src.data[base + fill..src.off]
      requires buf.Length > 0
      modifies this`fill, buf
      ensures Valid() && fill == old(fill) + |chunk|
    {
      ghost var window := buf[..fill];
      forall i | 0 <= i < |chunk| {
        buf[fill + i] := chunk[i];
      }
      assert buf[..fill + |chunk|] == window + chunk;
      WindowExtends(window, base, base + fill, src.off);
      fill := fill + |chunk|;
    }

    /** A read that starts where the window ends extends it. */
    lemma WindowExtends(window: seq<byte>, from: nat, end: nat, to: nat)
      requires from <= end <= to <= |src.data| && window == src.data[from..end]
      ensures window + src.data[end..to] == src.data[from..to]
    {
    }

    method RefillTail() returns (ok: bool)
      requires Valid()
      modifies this`base, this`fill, this`buf, this`streamEOF, buf, src
      ensures Valid() && (buf == old(buf) || fresh(buf))
      ensures ok ==> streamEOF || base + fill > old(base + fill)
      ensures !ok ==> src.Unsteady()
      ensures base + fill >= old(base + fill)
    {
      if streamEOF {
        return true;
      }
      var free := EnsureTailCapacity();
      var chunk, status := src.Read(free);
      StoreTail(chunk);
      if status == AtEnd {
        streamEOF := true;
      }
      ok := status != Failed && (|chunk| > 0 || status == AtEnd);
    }

    /** Reads on until offset abs is in the window or the stream has ended. */
    method HaveByteAbs(abs: nat) returns (have: bool, ok: bool)
      requires Valid() && cursor <= abs
      modifies this`base, this`fill, this`buf, this`streamEOF, buf, src
      ensures Valid() && (buf == old(buf) || fresh(buf))
      ensures ok ==> have == (abs < |src.data|)
      ensures !ok ==> src.Unsteady()
      ensures ok && have ==> abs < base + fill
      ensures ok && !have ==> streamEOF
      ensures base + fill >= old(base + fill)
    {
      while abs >= base + fill
        invariant Valid() && (buf == old(buf) || fresh(buf)) && base + fill >= old(base + fill)
        decreases |src.data| - (base + fill), !streamEOF
      {
        if streamEOF {
          return false, true;
        }
        ok := RefillTail();
        if !ok {
          return false, false;
        }
      }
      return true, true;
    }

    method EnsureSecondByteForCRLF(next: nat) returns (has: bool, ok: bool)
      requires Valid() && cursor <= next
      modifies this`base, this`fill, this`buf, this`streamEOF, buf, src
      ensures Valid() && (buf == old(buf) || fresh(buf))
      ensures ok ==> has == (next < |src.data|)
      ensures !ok ==> src.Unsteady()
      ensures ok && has ==> next < base + fill
      ensures base + fill >= old(base + fill)
    {
      has, ok := HaveByteAbs(next);
      // HaveByteAbs itself reads on until the byte or the end arrives, so no further wait is ever entered.
      assert ok ==> has || streamEOF;
    }

    function ByteAt(abs: nat): byte
      requires Valid() && base <= abs < base + fill
      reads this, buf, src
      ensures ByteAt(abs) == src.data[abs]
    {
      assert src.data[abs] == src.data[base..base + fill][abs - base];
      buf[abs - base]
    }

    // ---------- the shared stream ----------

    /** Notes the offset before a callback that may seek and read the stream. */
    method SaveOffset(span: LineSpan) returns (saved: nat, ok: bool)
      requires Valid() && span.end <= base + fill
      modifies src`off, src`faulted
      ensures ok ==> Valid() && saved == base + fill
      ensures src.faulted == (old(src.faulted) || !ok)
    {
      ok := src.SeekTo(src.off);
      saved := src.off;
      assert span.end <= MAX_INT64;
    }

    /** Puts the stream back after the callback. The scanner has always read past the line's end, so the larger of the
        two offsets is the saved one. */
    method RestoreOffset(saved: nat, span: LineSpan) returns (ok: bool)
      requires HoldsWindow() && saved == base + fill && span.end <= saved
      modifies src`off, src`faulted
      ensures ok ==> Valid()
      ensures src.faulted == (old(src.faulted) || !ok)
    {
      var next := saved;
      if span.end > next {
        next := span.end;
      }
      assert next == saved;
      ok := src.SeekTo(next);
    }

    // ---------- finding a line ----------

    /** The line that ends at the cursor with this terminator. */
    method EmitTerminated(kind: TerminatorKind) returns (span: LineSpan)
      requires Valid() && Tracks() && cursor + kind.Len() <= base + fill
      requires kind != TermNone && cursor < |src.data| && kind == KindAt(src.data, cursor)
      modifies this`lineNum
      ensures Valid() && HandedOver(span)
    {
      lineNum := lineNum + 1;
      span := LineSpan(lineNum, lineBegin, cursor, cursor + kind.Len(), kind);
      ghost var rest := SpansFrom(src.data, span.end, span.end, lineNum);
      assert emitted + ([span] + rest) == emitted + [span] + rest;
    }

    lemma HandedOverFits(span: LineSpan)
      requires HandedOver(span)
      ensures SpanFits(src.data, span) && span.start < span.end
    {
      SpansTile(src.data);
      TileAt(src.data, SpansOf(src.data), 0, 0, |emitted|);
      assert SpansOf(src.data)[|emitted|] == span;
    }

    /** The callback has accepted the line. */
    method LineDone(span: LineSpan)
      requires Valid() && HandedOver(span)
      modifies this`cursor, this`lineBegin, this`emitted, this`base, this`fill, buf
      ensures Valid() && Tracks() && emitted == old(emitted) + [span] && lineBegin == span.end
    {
      lineBegin := span.end;
      cursor := span.end;
      emitted := emitted + [span];
      DropBufferedBeforeCursor();
    }

    method NoteConsumed(n: nat)
      requires Valid() && cursor + n <= base + fill
      modifies this`cursor
      ensures Valid() && cursor == old(cursor) + n
    {
      cursor := cursor + n;
    }

    method HandleCR() returns (r: SpanRead)
      requires Valid() && Tracks() && cursor < base + fill && src.data[cursor] == CR
      modifies this`lineNum, this`base, this`fill, this`buf, this`streamEOF, buf, src
      ensures buf == old(buf) || fresh(buf)
      ensures r.Found? ==> Valid() && HandedOver(r.span)
      ensures !r.NoMoreSpans? && (r.Broken? ==> src.Unsteady())
    {
      var next := cursor + 1;
      var has2nd, read := EnsureSecondByteForCRLF(next);
      if !read {
        return Broken;
      }
      var kind := if has2nd && ByteAt(next) == LF then TermCRLF else TermCR;
      var span := EmitTerminated(kind);
      r := Found(span);
    }

    method HandleLF() returns (span: LineSpan)
      requires Valid() && Tracks() && cursor < base + fill && src.data[cursor] == LF
      modifies this`lineNum
      ensures Valid() && HandedOver(span)
    {
      span := EmitTerminated(TermLF);
    }

    /** One byte: a terminator ends the line, any other byte is passed over. */
    method DispatchByte(ch: byte) returns (ended: Option<SpanRead>)
      requires Valid() && Tracks() && cursor < base + fill && src.data[cursor] == ch
      modifies this`cursor, this`lineNum, this`base, this`fill, this`buf, this`streamEOF, buf, src
      ensures buf == old(buf) || fresh(buf)
      ensures ended == None ==> Valid() && Tracks() && cursor == old(cursor) + 1
      ensures ended.Some? && ended.value.Found? ==> Valid() && HandedOver(ended.value.span)
      ensures ended.Some? ==> !ended.value.NoMoreSpans? && (ended.value.Broken? ==> src.Unsteady())
    {
      if ch == LF {
        var span := HandleLF();
        return Some(Found(span));
      }
      if ch == CR {
        var r := HandleCR();
        return Some(r);
      }
      NoteConsumed(1);
      ended := None;
    }

    /** What is left behind the last terminator. */
    method FinalizeTrailing() returns (r: SpanRead)
      requires Valid() && Tracks() && cursor == |src.data|
      modifies this`lineNum
      ensures Valid()
      ensures r.Found? ==> HandedOver(r.span)
      ensures r.NoMoreSpans? ==> Tracks() && emitted == SpansOf(src.data)
      ensures !r.Broken?
    {
      if !(cursor > lineBegin) {
        return NoMoreSpans;
      }
      lineNum := lineNum + 1;
      var span := LineSpan(lineNum, lineBegin, cursor, cursor, TermNone);
      assert SpansFrom(src.data, span.end, span.end, lineNum) == [];
      assert emitted + [span] + [] == emitted + [span];
      r := Found(span);
    }

    /** Runs on to the next line, the end of the source, or a fault of the stream. */
    method NextSpan() returns (r: SpanRead)
      requires Valid() && Tracks()
      modifies this`cursor, this`lineNum, this`base, this`fill, this`buf, this`streamEOF, buf, src
      ensures buf == old(buf) || fresh(buf)
      ensures r.Found? ==> Valid() && HandedOver(r.span)
      ensures r.NoMoreSpans? ==> Valid() && Tracks() && emitted == SpansOf(src.data)
      ensures r.Broken? ==> src.Unsteady()
    {
      while true
        invariant Valid() && Tracks() && (buf == old(buf) || fresh(buf))
        decreases |src.data| - cursor
      {
        var have, read := HaveByteAbs(cursor);
        if !read {
          return Broken;
        }
        if !have {
          r := FinalizeTrailing();
          return;
        }
        var ended := DispatchByte(ByteAt(cursor));
        if ended.Some? {
          return ended.value;
        }
        DropBufferedBeforeCursor();
      }
    }
  }

  // ---------- a scan with any callback ----------

  datatype ScanOutcome<S> = Scanned(result: Step<S>) | ScanFailed(state: S)

  /** Scans src from its start. Whatever the chunk size, the pattern of short reads, and the seeking and reading the
      callback does on the same stream, it is fed exactly the spans of the source, each once and in order; when the
      stream fails it has been fed a prefix of them. */
  method ScanLineSpans<S>(src: Source, onLine: (S, LineSpan) -> Step<S>, init: S, shared: bool, chunkSize: int)
    returns (outcome: ScanOutcome<S>, ghost delivered: seq<LineSpan>)
    requires |src.data| <= MAX_INT64
    modifies src
    ensures outcome.Scanned? ==> outcome.result == Feed(onLine, init, SpansOf(src.data))
    ensures delivered <= SpansOf(src.data)
    ensures outcome.ScanFailed? ==> src.Unsteady()
    ensures outcome.ScanFailed? ==> Feed(onLine, init, delivered) == Continue(outcome.state)
  {
    delivered := [];
    var sought := src.SeekTo(0);
    if !sought {
      return ScanFailed(init), delivered;
    }
    var scanner := new ScannerState(src, if chunkSize > 0 then chunkSize else DEFAULT_CHUNK_SIZE);
    var state := init;
    while true
      invariant scanner.Valid() && scanner.Tracks() && scanner.src == src && fresh(scanner) && fresh(scanner.buf)
      invariant Feed(onLine, init, scanner.emitted) == Continue(state) && delivered == scanner.emitted
      decreases |SpansOf(src.data)| - |scanner.emitted|
    {
      var r := scanner.NextSpan();
      if r.Broken? {
        return ScanFailed(state), delivered;
      }
      if r.NoMoreSpans? {
        return Scanned(Continue(state)), delivered;
      }
      FedOneMore(onLine, init, delivered, r.span, SpansOf(src.data));
      var done, ok := true, true;
      if shared {
        done, ok := AnyCallback(scanner, r.span);
      }
      if !done {
        return ScanFailed(state), delivered;
      }
      var step := onLine(state, r.span);
      delivered, state := delivered + [r.span], step.state;
      if step.Halt? {
        return Scanned(Halt(state)), delivered;
      }
      if !ok {
        return ScanFailed(state), delivered;
      }
      scanner.LineDone(r.span);
    }
  }

  /** A callback that shares the stream: done when it ran to its end, ok when the stream is back where it was. */
  method AnyCallback(scanner: ScannerState, span: LineSpan) returns (done: bool, ok: bool)
    requires scanner.Valid() && scanner.HandedOver(span)
    modifies scanner.src
    ensures ok ==> done && scanner.Valid()
    ensures !ok ==> scanner.src.faulted
  {
    var saved, noted := scanner.SaveOffset(span);
    if !noted {
      return false, false;
    }
    done := Wander(scanner.src);
    ok := scanner.RestoreOffset(saved, span);
    ok := ok && done;
  }

  /** Any seeking and reading of the stream. */
  method Wander(src: Source) returns (ok: bool)
    modifies src
    ensures src.faulted == (old(src.faulted) || !ok) && (old(src.stalled) ==> src.stalled)
  {
    src.off := *;
    src.idle := *;
    ok := *;
    src.faulted := src.faulted || !ok;
  }

  // ---------- a scan inside a callback ----------

  /** Finds the first line span with a scan of its own on the shared stream, and tries to put the stream back. */
  method FirstPreambleLineSpan(src: Source) returns (first: Option<LineSpan>, restored: bool)
    requires |src.data| <= MAX_INT64
    modifies src
    ensures first.Some? ==> SpansOf(src.data) != [] && first.value == SpansOf(src.data)[0]
    ensures first == None ==> SpansOf(src.data) == [] || src.Unsteady()
    ensures if restored then src.off == old(src.off) else src.faulted
  {
    var saved := src.off;
    var outcome, delivered := ScanLineSpans(src, StopAtFirst, None, false, 0);
    restored := src.SeekTo(saved);
    first := if outcome.Scanned? && outcome.result.Halt? then outcome.result.state else None;
  }

  function StopAtFirst(got: Option<LineSpan>, span: LineSpan): Step<Option<LineSpan>> {
    Halt(Some(span))
  }
}
