/** Copying one byte span of a source, with or without holding it against a fingerprint. */
module SpanCopy {
  import opened Bytes
  import opened Streams

  const COPY_CHUNK: nat := 32 * 1024

  /** Half-open bounds as a seek offset and a length, when both fit a signed 64-bit integer. */
  function SerializedSpanSeekAndLength(start: nat, end: nat): (r: Option<(nat, nat)>)
    ensures r.Some? <==> start <= end && end - start <= MAX_INT64 && start <= MAX_INT64
    ensures r.Some? ==> r.value.0 + r.value.1 == end
  {
    if end < start || end - start > MAX_INT64 || start > MAX_INT64 then None else Some((start, end - start))
  }

  /** Positions src by seeking from its end, and refuses an offset behind the end. */
  method SeekSourceToAbsolute(src: Source, abs: nat) returns (ok: bool)
    modifies src`off, src`faulted
    ensures ok ==> src.off == abs <= |src.data|
    ensures !ok ==> src.faulted || abs > |src.data|
    ensures old(src.faulted) ==> src.faulted
  {
    var sized := src.SeekTo(|src.data|);
    if !sized || abs > src.off {
      return false;
    }
    ok := src.SeekTo(abs);
  }

  /** io.ReadFull: want bytes, fewer only where the source ends or fails. */
  method ReadFull(src: Source, want: nat) returns (chunk: seq<byte>, status: ReadStatus)
    requires src.off <= |src.data|
    modifies src
    ensures old(src.off) <= src.off <= |src.data| && chunk == src.data[old(src.off)..src.off]
    ensures |chunk| <= want && (status == More ==> |chunk| == want)
    ensures status == AtEnd ==> src.off == |src.data| && |chunk| < want
    ensures status == Failed ==> src.faulted
    ensures old(src.faulted) ==> src.faulted
  {
    chunk, status := [], More;
    ghost var start := src.off;
    while |chunk| < want && status == More
      invariant start <= src.off <= |src.data| && chunk == src.data[start..src.off] && |chunk| <= want
      invariant status == AtEnd ==> src.off == |src.data|
      invariant (status == Failed || old(src.faulted)) ==> src.faulted
      decreases want - |chunk|, src.idle, status == More
    {
      ghost var at := src.off;
      var more;
      more, status := src.Read(want - |chunk|);
      assert src.data[start..at] + src.data[at..src.off] == src.data[start..src.off];
      chunk := chunk + more;
    }
    if |chunk| == want {
      status := More;
    }
  }

  /** What can go wrong when len bytes are copied from offset off. */
  ghost predicate CopyTrouble(dst: Sink?, src: Source, off: nat, len: nat)
    reads dst, src
  {
    src.faulted || off + len > |src.data| || (dst != null && (dst.faulted || dst.cut))
  }

  /** Writes a chunk in one piece; a null dst stands for a hash alone, which takes everything. */
  method WriteSpanChunk(dst: Sink?, chunk: seq<byte>) returns (ok: bool)
    modifies dst
    ensures dst != null ==> old(dst.data) <= dst.data && (ok ==> dst.data == old(dst.data) + chunk)
    ensures !ok ==> dst != null && (dst.faulted || dst.cut)
  {
    ok := true;
    if dst != null {
      ok := WriteOnce(dst, chunk);
    }
  }

  /** One chunk: read in full, or up to the end of the source, then written in one piece. */
  method CopySourceSpanChunk(dst: Sink?, src: Source, remaining: nat)
    returns (ok: bool, partial: bool, chunk: seq<byte>)
    requires src.off <= |src.data| && remaining > 0
    modifies src, dst
    ensures dst != null ==> old(dst.data) <= dst.data && (ok ==> dst.data == old(dst.data) + chunk)
    ensures src.off <= |src.data| && (old(src.faulted) ==> src.faulted)
    ensures ok ==> 0 < |chunk| <= remaining && old(src.off) + |chunk| == src.off
    ensures ok ==> chunk == src.data[old(src.off)..src.off]
    ensures ok && partial ==> src.off == |src.data|
    ensures !ok ==> CopyTrouble(dst, src, old(src.off), remaining)
  {
    var status;
    chunk, status := ReadFull(src, if COPY_CHUNK > remaining then remaining else COPY_CHUNK);
    partial := status == AtEnd;
    if status == Failed || chunk == [] {
      return false, partial, chunk;
    }
    ok := WriteSpanChunk(dst, chunk);
  }

  /** Copies exactly byteLen bytes or fails; copied is what a hash behind the same chunks has taken. It fails only when
      the source ends early, a stream fails, or a write comes up short. */
  method CopySourceSpanChunks(dst: Sink?, src: Source, byteLen: int) returns (ok: bool, copied: seq<byte>)
    requires src.off <= |src.data|
    modifies src, dst
    ensures dst != null ==> old(dst.data) <= dst.data && (ok ==> dst.data == old(dst.data) + copied)
    ensures ok ==> |copied| == (if byteLen > 0 then byteLen else 0) && old(src.off) + |copied| <= |src.data|
    ensures ok ==> copied == src.data[old(src.off)..old(src.off) + |copied|]
    ensures !ok ==> byteLen > 0 && CopyTrouble(dst, src, old(src.off), byteLen)
    ensures old(src.faulted) ==> src.faulted
  {
    copied := [];
    if byteLen <= 0 {
      return true, copied;
    }
    var remaining := byteLen;
    ghost var start := src.off;
    while remaining > 0
      invariant 0 <= remaining == byteLen - |copied| && start + |copied| == src.off <= |src.data|
      invariant copied == src.data[start..src.off] && (dst != null ==> dst.data == old(dst.data) + copied)
      invariant old(src.faulted) ==> src.faulted
      decreases remaining
    {
      ghost var at := src.off;
      var partial, chunk;
      ok, partial, chunk := CopySourceSpanChunk(dst, src, remaining);
      if !ok {
        return false, copied;
      }
      assert src.data[start..at] + src.data[at..src.off] == src.data[start..src.off];
      copied := copied + chunk;
      remaining := remaining - |chunk|;
      if partial && remaining > 0 {
        return false, copied;
      }
    }
    ok := true;
  }

  /** The digest of one span of the source; it fails only on bad bounds or a fault of the source. */
  method SHA256SerializedByteSpan(src: Source, start: nat, end: nat, sha: HashFunction)
    returns (ok: bool, digest: Digest)
    modifies src
    ensures ok ==> start <= end && (start < end ==> end <= |src.data|) && digest == sha(Slice(src.data, start, end))
    ensures !ok ==> src.faulted || !(start <= end <= |src.data| <= MAX_INT64)
    ensures old(src.faulted) ==> src.faulted
  {
    var bounds := SerializedSpanSeekAndLength(start, end);
    if bounds == None {
      return false, [];
    }
    if bounds.value.1 == 0 {
      assert Slice(src.data, start, end) == [];
      return true, sha([]);
    }
    ok := SeekSourceToAbsolute(src, bounds.value.0);
    if !ok {
      return false, [];
    }
    var copied;
    ok, copied := CopySourceSpanChunks(null, src, bounds.value.1);
    digest := sha(copied);
  }

  datatype CopyResult = Copied | FingerprintMismatch | CopyFailed

  /** Copies the span and accepts it only when its digest is the wanted one. What dst received is then exactly the span
      of the source as it is now, and it hashes like the span that was scanned. */
  method CopySpanToWriterWithSHA256Verify(dst: Sink, src: Source, seekOff: nat, byteLen: nat, want: Digest,
                                          sha: HashFunction)
    returns (r: CopyResult)
    modifies src, dst
    ensures old(dst.data) <= dst.data
    ensures r.Copied? && byteLen > 0 ==> seekOff + byteLen <= |src.data|
    ensures r.Copied? ==> sha(Slice(src.data, seekOff, seekOff + byteLen)) == want
    ensures r.Copied? ==> dst.data == old(dst.data) + Slice(src.data, seekOff, seekOff + byteLen)
    ensures r.FingerprintMismatch? ==> sha(Slice(src.data, seekOff, seekOff + byteLen)) != want
    ensures r.CopyFailed? ==> byteLen > 0 && CopyTrouble(dst, src, seekOff, byteLen)
  {
    if byteLen == 0 {
      assert Slice(src.data, seekOff, seekOff) == [];
      return if want != sha([]) then FingerprintMismatch else Copied;
    }
    var ok := SeekSourceToAbsolute(src, seekOff);
    if !ok {
      return CopyFailed;
    }
    var copied;
    ok, copied := CopySourceSpanChunks(dst, src, byteLen);
    if !ok {
      return CopyFailed;
    }
    r := if sha(copied) != want then FingerprintMismatch else Copied;
  }
}
