/** Searching a line's content for a literal, chunk by chunk, with a small overlap kept between chunks. */
module LiteralSearch {
  import opened Bytes
  import opened Streams
  import opened Spans
  import SpanCopy

  const LITERAL_SCAN_CHUNK: nat := 32 * 1024
  const READER_WINDOW: nat := 4096

  ghost predicate OccursAt(literal: seq<byte>, text: seq<byte>, i: int) {
    0 <= i <= |text| - |literal| && text[i..i + |literal|] == literal
  }

  ghost predicate Occurs(literal: seq<byte>, text: seq<byte>) {
    exists i :: OccursAt(literal, text, i)
  }

  /** An occurrence cuts the text in three. */
  lemma OccursReads(literal: seq<byte>, text: seq<byte>)
    ensures Occurs(literal, text) <==> exists before, behind :: text == before + literal + behind
  {
    if Occurs(literal, text) {
      var i :| OccursAt(literal, text, i);
      assert text == text[..i] + literal + text[i + |literal|..];
    }
    if exists before, behind :: text == before + literal + behind {
      var before, behind :| text == before + literal + behind;
      assert text[|before|..|before| + |literal|] == literal;
      assert OccursAt(literal, text, |before|);
    }
  }

  /** bytes.Contains */
  method Contains(text: seq<byte>, literal: seq<byte>) returns (found: bool)
    ensures found <==> Occurs(literal, text)
  {
    var i := 0;
    while i <= |text| - |literal|
      invariant 0 <= i && forall k :: 0 <= k < i ==> !OccursAt(literal, text, k)
    {
      if text[i..i + |literal|] == literal {
        assert OccursAt(literal, text, i);
        return true;
      }
      i := i + 1;
    }
    found := false;
  }

  // ---------- why a short overlap is enough ----------

  /** The last bytes of text, at most n of them. */
  function LastBytes(text: seq<byte>, n: nat): seq<byte> {
    if |text| > n then text[|text| - n..] else text
  }

  /** An occurrence in seen + chunk lies in seen alone, or in the last bytes of seen with chunk behind them. */
  lemma OccurrenceIsInOneWindow(seen: seq<byte>, chunk: seq<byte>, literal: seq<byte>, i: int)
    requires literal != [] && OccursAt(literal, seen + chunk, i)
    ensures Occurs(literal, seen) || Occurs(literal, LastBytes(seen, |literal| - 1) + chunk)
  {
    var tail := LastBytes(seen, |literal| - 1);
    var dropped := |seen| - |tail|;
    if i < dropped {
      assert (seen + chunk)[i..i + |literal|] == seen[i..i + |literal|];
      assert OccursAt(literal, seen, i);
    } else {
      assert seen + chunk == seen[..dropped] + (tail + chunk);
      assert (seen + chunk)[i..i + |literal|] == (tail + chunk)[i - dropped..i - dropped + |literal|];
      assert OccursAt(literal, tail + chunk, i - dropped);
    }
  }

  lemma OccursBehind(front: seq<byte>, text: seq<byte>, literal: seq<byte>)
    requires Occurs(literal, text)
    ensures Occurs(literal, front + text)
  {
    var i :| OccursAt(literal, text, i);
    assert (front + text)[|front| + i..|front| + i + |literal|] == text[i..i + |literal|];
    assert OccursAt(literal, front + text, |front| + i);
  }

  /** Where nothing was found before, an occurrence that a new chunk completes begins within the overlap. */
  lemma OverlapSuffices(seen: seq<byte>, chunk: seq<byte>, literal: seq<byte>)
    requires literal != [] && !Occurs(literal, seen)
    ensures Occurs(literal, seen + chunk) <==> Occurs(literal, LastBytes(seen, |literal| - 1) + chunk)
  {
    var tail := LastBytes(seen, |literal| - 1);
    assert seen + chunk == seen[..|seen| - |tail|] + (tail + chunk);
    if Occurs(literal, tail + chunk) {
      OccursBehind(seen[..|seen| - |tail|], tail + chunk, literal);
    }
    if Occurs(literal, seen + chunk) {
      var i :| OccursAt(literal, seen + chunk, i);
      OccurrenceIsInOneWindow(seen, chunk, literal, i);
    }
  }

  lemma OverlapMovesOn(seen: seq<byte>, chunk: seq<byte>, n: nat)
    ensures LastBytes(LastBytes(seen, n) + chunk, n) == LastBytes(seen + chunk, n)
  {
  }

  /** At most overlap bytes are kept between two chunks. */
  function KeepLiteralOverlap(src: seq<byte>, overlap: int): (kept: seq<byte>)
    ensures |kept| <= if overlap > 0 then overlap else 0
    ensures overlap >= 0 ==> kept == LastBytes(src, overlap)
  {
    if overlap <= 0 then [] else LastBytes(src, overlap)
  }

  /** Nothing has been found, and all that is kept of what was seen is too short to hold the literal. */
  ghost predicate NotYet(literal: seq<byte>, seen: seq<byte>, tail: seq<byte>) {
    literal != [] && !Occurs(literal, seen) && tail == LastBytes(seen, |literal| - 1)
  }

  method AppendLiteralWindow(tail: seq<byte>, chunk: seq<byte>, literal: seq<byte>, ghost seen: seq<byte>)
    returns (next: seq<byte>, matched: bool)
    requires NotYet(literal, seen, tail)
    ensures matched <==> Occurs(literal, seen + chunk)
    ensures !matched ==> NotYet(literal, seen + chunk, next) && |next| <= |literal| - 1
  {
    if chunk == [] {
      assert seen + chunk == seen;
      return tail, false;
    }
    var window := tail + chunk;
    OverlapSuffices(seen, chunk, literal);
    OverlapMovesOn(seen, chunk, |literal| - 1);
    matched := Contains(window, literal);
    next := if matched then window else KeepLiteralOverlap(window, |literal| - 1);
  }

  // ---------- the search ----------

  /** io.LimitReader: at most left more bytes of src, then the end. */
  method ReadLimited(src: Source, left: nat, limit: nat) returns (chunk: seq<byte>, status: ReadStatus)
    requires limit > 0 && src.off + left <= |src.data|
    modifies src
    ensures |chunk| <= left && src.off == old(src.off) + |chunk| && chunk == src.data[old(src.off)..src.off]
    ensures status == AtEnd ==> |chunk| == left
    ensures src.idle <= old(src.idle)
    ensures chunk == [] && status == More ==> src.idle < old(src.idle)
    ensures src.faulted == (old(src.faulted) || status == Failed)
    ensures chunk == [] && status == More ==> src.stalled
  {
    if left == 0 {
      return [], AtEnd;
    }
    chunk, status := src.Read(if limit > left then left else limit);
  }

  /** However the reads cut the content, and though only an overlap shorter than the literal is kept between them, the
      literal is found if and only if it occurs; the search gives no answer only when the source fails. */
  method ContainsLiteralInReader(src: Source, contentLen: nat, literal: seq<byte>) returns (ok: bool, found: bool)
    requires src.off + contentLen <= |src.data|
    modifies src
    ensures ok ==> (found <==> Occurs(literal, old(src.data[src.off..src.off + contentLen])))
    ensures !ok ==> src.faulted
    ensures old(src.faulted) ==> src.faulted
  {
    ghost var start, content := src.off, src.data[src.off..src.off + contentLen];
    if literal == [] {
      assert OccursAt(literal, content, 0);
      return true, true;
    }
    var tail: seq<byte> := [];
    var left := contentLen;
    var status := More;
    while status == More
      invariant 0 <= left <= contentLen && src.off == start + contentLen - left
      invariant NotYet(literal, content[..contentLen - left], tail)
      invariant status == AtEnd ==> left == 0
      invariant src.faulted == (old(src.faulted) || status == Failed)
      decreases left, src.idle, status == More
    {
      ghost var seen := content[..contentLen - left];
      var chunk, matched;
      chunk, status := ReadLimited(src, left, LITERAL_SCAN_CHUNK);
      left := left - |chunk|;
      ReadOn(src.data, start, contentLen, |seen|, |chunk|);
      tail, matched := AppendLiteralWindow(tail, chunk, literal, seen);
      if matched {
        FoundEarly(literal, content, contentLen - left);
        return true, true;
      }
    }
    assert left == 0 ==> content[..contentLen - left] == content;
    ok, found := status == AtEnd, false;
  }

  lemma ReadOn(data: seq<byte>, start: nat, len: nat, k: nat, n: nat)
    requires start + len <= |data| && k + n <= len
    ensures data[start..start + len][..k] + data[start + k..start + k + n] == data[start..start + len][..k + n]
  {
    assert data[start..start + len][..k] == data[start..start + k];
    assert data[start..start + len][..k + n] == data[start..start + k + n];
  }

  lemma FoundEarly(literal: seq<byte>, content: seq<byte>, n: nat)
    requires n <= |content| && Occurs(literal, content[..n])
    ensures Occurs(literal, content)
  {
    var i :| OccursAt(literal, content[..n], i);
    assert content[..n][i..i + |literal|] == content[i..i + |literal|];
    assert OccursAt(literal, content, i);
  }

  method MatchExactLiteralBytes(src: Source, contentLen: nat, literal: seq<byte>) returns (ok: bool, matched: bool)
    requires src.off + contentLen <= |src.data|
    modifies src
    ensures ok ==> (matched <==> old(src.data[src.off..src.off + contentLen]) == literal)
    ensures !ok ==> src.faulted
    ensures old(src.faulted) ==> src.faulted
  {
    if contentLen != |literal| {
      return true, false;
    }
    var buf, status := SpanCopy.ReadFull(src, |literal|);
    ok := status == More;
    matched := buf == literal;
  }

  // ---------- matching a line ----------

  /** A literal that the whole content must equal, or that must occur somewhere in it. */
  datatype Literal = Literal(text: seq<byte>, exact: bool)

  ghost predicate Accepts(literal: Literal, content: seq<byte>) {
    if literal.exact then content == literal.text else Occurs(literal.text, content)
  }

  /** Matches a line's content against a literal; bytes beyond the content never count. */
  method MatchLiteralLineSpan(src: Source, span: LineSpan, literal: Literal) returns (ok: bool, matched: bool)
    requires SpanFits(src.data, span)
    modifies src
    ensures ok ==> (matched <==> Accepts(literal, src.data[span.start..span.contentEnd]))
    ensures !ok ==> src.faulted
    ensures old(src.faulted) ==> src.faulted
  {
    ok := src.SeekTo(span.start);
    if !ok {
      return false, false;
    }
    if literal.exact {
      ok, matched := MatchExactLiteralBytes(src, span.contentEnd - span.start, literal.text);
    } else {
      ok, matched := ContainsLiteralInReader(src, span.contentEnd - span.start, literal.text);
    }
  }

  /** bufio.Reader over io.LimitReader: the left bytes of src, unless a read fails or too many in a row bring
      nothing. */
  method ReadBuffered(src: Source, left: nat) returns (ok: bool, content: seq<byte>)
    requires src.off + left <= |src.data|
    modifies src
    ensures ok ==> content == old(src.data[src.off..src.off + left])
    ensures !ok ==> src.Unsteady()
    ensures old(src.faulted) ==> src.faulted
  {
    content := [];
    ghost var start := src.off;
    var empty, status := 0, More;
    while status == More && empty < MAX_EMPTY_READS
      invariant |content| <= left && src.off == start + |content| && content == src.data[start..src.off]
      invariant (status == AtEnd ==> |content| == left) && (status == Failed || empty > 0 ==> src.Unsteady())
      invariant old(src.faulted) ==> src.faulted
      decreases left - |content|, src.idle, status == More
    {
      ghost var at := src.off;
      var chunk;
      chunk, status := ReadLimited(src, left - |content|, READER_WINDOW);
      assert src.data[start..at] + chunk == src.data[start..src.off];
      content := content + chunk;
      empty := if chunk == [] && status == More then empty + 1 else 0;
    }
    ok := status == AtEnd;
  }

  /** Seeks to the line and reads its content alone, as the pattern engine does. */
  method ReadLineContent(src: Source, span: LineSpan) returns (ok: bool, content: seq<byte>)
    requires SpanFits(src.data, span)
    modifies src
    ensures ok ==> content == src.data[span.start..span.contentEnd]
    ensures !ok ==> src.Unsteady()
    ensures old(src.faulted) ==> src.faulted
  {
    ok := src.SeekTo(span.start);
    if !ok {
      return false, [];
    }
    ok, content := ReadBuffered(src, span.contentEnd - span.start);
  }

  /** The literal, when there is one, stands for the same pattern. */
  ghost predicate StandsFor(literal: Option<Literal>, matches: seq<byte> -> bool) {
    literal.Some? ==> forall content :: matches(content) <==> Accepts(literal.value, content)
  }

  /** Matches a line on the stream, by the literal when the pattern is one. */
  method MatchLineSpan(src: Source, span: LineSpan, matches: seq<byte> -> bool, literal: Option<Literal>)
    returns (ok: bool, matched: bool)
    requires SpanFits(src.data, span) && StandsFor(literal, matches)
    modifies src
    ensures ok ==> matched == matches(src.data[span.start..span.contentEnd])
    ensures !ok ==> src.Unsteady()
    ensures old(src.faulted) ==> src.faulted
  {
    if literal.Some? {
      ok, matched := MatchLiteralLineSpan(src, span, literal.value);
    } else {
      var content;
      ok, content := ReadLineContent(src, span);
      matched := matches(content);
    }
  }
}
