/** The queue of blanks that may turn out to be trailing: bounded memory, the oldest part spilled to scratch storage. */
module PendingWhitespace {
  import opened Bytes
  import opened Streams

  const DEFAULT_MAX_BUF := 64 * 1024
  const COPY_CHUNK: nat := 32 * 1024

  const SEEK_START := 0
  const SEEK_CURRENT := 1
  const SEEK_END := 2

  /** buf laid over data at off; a gap before off is filled with zero bytes. */
  function Overlay(data: seq<byte>, off: nat, buf: seq<byte>): (r: seq<byte>)
    ensures |r| == if off + |buf| > |data| then off + |buf| else |data|
    ensures forall i :: 0 <= i < |r| ==>
      r[i] == if off <= i < off + |buf| then buf[i - off] else if i < |data| then data[i] else 0
  {
    var end := off + |buf|;
    var grown := if end > |data| then data + seq(end - |data|, i => 0) else data;
    grown[..off] + buf + grown[end..]
  }

  class MemSpillFile {
    var data: seq<byte>
    var off: nat

    constructor ()
      ensures data == [] && off == 0
    {
      data, off := [], 0;
    }

    method Read(limit: nat) returns (chunk: seq<byte>, eof: bool)
      modifies this
      ensures data == old(data) && eof == (old(off) >= |data|)
      ensures eof ==> chunk == [] && off == old(off)
      ensures !eof ==> off == if old(off) + limit < |data| then old(off) + limit else |data|
      ensures !eof ==> old(off) <= off && chunk == data[old(off)..off]
    {
      if off >= |data| {
        return [], true;
      }
      var end := if off + limit < |data| then off + limit else |data|;
      chunk, eof := data[off..end], false;
      off := end;
    }

    method Write(buf: seq<byte>)
      modifies this
      ensures data == Overlay(old(data), old(off), buf) && off == old(off) + |buf|
    {
      data := Overlay(data, off, buf);
      off := off + |buf|;
    }

    method Seek(delta: int, whence: int) returns (pos: int, ok: bool)
      modifies this
      ensures data == old(data)
      ensures ok == (0 <= whence <= 2 && old(Target(delta, whence)) >= 0)
      ensures if ok then pos == off == old(Target(delta, whence)) else pos == 0 && off == old(off)
    {
      if !(0 <= whence <= 2) {
        return 0, false;
      }
      var base := if whence == SEEK_START then 0 else if whence == SEEK_CURRENT then off else |data|;
      if base + delta < 0 {
        return 0, false;
      }
      off := base + delta;
      return off, true;
    }

    function Target(delta: int, whence: int): int
      reads this
    {
      delta + if whence == SEEK_START then 0 else if whence == SEEK_CURRENT then off else |data|
    }
  }

  /** Hands out scratch files; nextID numbers them. */
  class MemSpillBacking {
    var nextID: nat

    constructor () {
      nextID := 0;
    }

    method CreateScratch() returns (f: MemSpillFile)
      modifies this
      ensures fresh(f) && f.data == [] && f.off == 0 && nextID == old(nextID) + 1
    {
      nextID := nextID + 1;
      f := new MemSpillFile();
    }
  }

  function LimitOf(maxBufBytes: int): nat {
    if maxBufBytes <= 0 then DEFAULT_MAX_BUF else maxBufBytes
  }

  class PendingQueue {
    var buf: seq<byte>
    var spill: MemSpillFile?
    var spillBytes: nat
    var maxBufBytes: int
    const backing: MemSpillBacking?
    ghost const limit: nat

    constructor (backing: MemSpillBacking?, maxBufBytes: int)
      ensures Valid() && Bytes() == [] && spill == null
      ensures this.backing == backing && limit == LimitOf(maxBufBytes)
    {
      this.buf, this.spill, this.spillBytes := [], null, 0;
      this.backing, this.maxBufBytes, this.limit := backing, maxBufBytes, LimitOf(maxBufBytes);
    }

    ghost predicate Valid()
      reads this, spill
    {
      && |buf| <= limit == LimitOf(maxBufBytes)
      && (spill == null ==> spillBytes == 0)
      && (spill != null ==> spill.off == |spill.data| == spillBytes && backing != null)
    }

    /** Everything pushed since the last flush or discard, oldest first. */
    ghost function Bytes(): seq<byte>
      reads this, spill
    {
      (if spill == null then [] else spill.data) + buf
    }

    predicate NonEmpty()
      requires Valid()
      reads this, spill
      ensures NonEmpty() <==> Bytes() != []
    {
      spillBytes > 0 || |buf| > 0
    }

    method CloseSpill()
      modifies this
      ensures spill == null && spillBytes == 0 && buf == old(buf) && maxBufBytes == old(maxBufBytes)
    {
      spill := null;
      spillBytes := 0;
    }

    method Discard()
      requires Valid()
      modifies this
      ensures Valid() && Bytes() == [] && spill == null && maxBufBytes == old(maxBufBytes)
    {
      buf := [];
      CloseSpill();
    }

    lemma SplitQueue(spilled: seq<byte>, held: seq<byte>, n: nat)
      requires n <= |held|
      ensures (spilled + held[..n]) + held[n..] == spilled + held
    {
    }

    /** Moves the older half of the buffer, and at least one byte, to the end of the scratch file. */
    method SpillOlderHalf() returns (ok: bool)
      requires Valid()
      modifies this, spill, backing
      ensures Valid() && (spill == null || spill == old(spill) || fresh(spill)) && maxBufBytes == old(maxBufBytes)
      ensures Bytes() == old(Bytes())
      ensures ok && old(buf) != [] ==> |buf| < old(|buf|)
      ensures !ok ==> backing == null && buf == old(buf)
    {
      if |buf| == 0 {
        return true;
      }
      var toSpill := |buf| / 2;
      if toSpill == 0 {
        toSpill := 1;
      }
      if spill == null {
        if backing == null {
          return false;
        }
        spill := backing.CreateScratch();
      }
      ghost var spilled := spill.data;
      spill.Write(buf[..toSpill]);
      assert spill.data == spilled + buf[..toSpill];
      spillBytes := spillBytes + toSpill;
      SplitQueue(spilled, buf, toSpill);
      buf := buf[toSpill..];
      ok := true;
    }

    /** Fails exactly when a full buffer must be spilled and there is no scratch storage. */
    method Push(ch: byte) returns (ok: bool)
      requires Valid()
      modifies this, spill, backing
      ensures Valid() && (spill == null || spill == old(spill) || fresh(spill))
      ensures Bytes() == old(Bytes()) + (if ok then [ch] else [])
      ensures ok <==> backing != null || old(|buf|) < limit
    {
      if maxBufBytes <= 0 {
        maxBufBytes := DEFAULT_MAX_BUF;
      }
      while |buf| >= maxBufBytes
        invariant Valid() && maxBufBytes == limit
        invariant Bytes() == old(Bytes()) && (spill == null || spill == old(spill) || fresh(spill))
        invariant backing == null ==> buf == old(buf)
        decreases |buf|
      {
        ok := SpillOlderHalf();
        if !ok {
          return;
        }
      }
      buf := buf + [ch];
      ok := true;
    }

    /** Writes the scratch file from its start and then the buffer. */
    method FlushTo(dst: Sink) returns (ok: bool)
      requires Valid()
      modifies this, spill, backing, dst
      ensures ok ==> Valid() && dst.data == old(dst.data) + old(Bytes()) && Bytes() == [] && spill == null
      ensures !ok ==> dst.faulted || dst.cut
      ensures maxBufBytes == old(maxBufBytes)
      ensures (spill == null || spill == old(spill) || fresh(spill))
    {
      if spill != null {
        var _, sought := spill.Seek(0, SEEK_START);
        assert sought;
        ok := CopyAll(dst, spill);
        if !ok {
          return;
        }
        CloseSpill();
      }
      if |buf| > 0 {
        ok := WriteOnce(dst, buf);
        if !ok {
          return;
        }
        buf := [];
      }
      ok := true;
    }
  }

  /** io.Copy from a scratch file to a writer. */
  method CopyAll(dst: Sink, f: MemSpillFile) returns (ok: bool)
    modifies dst, f
    ensures f.data == old(f.data)
    ensures ok && old(f.off) <= |f.data| ==> dst.data == old(dst.data) + f.data[old(f.off)..]
    ensures !ok ==> dst.faulted || dst.cut
  {
    ghost var start := f.off;
    while true
      invariant f.data == old(f.data) && start <= f.off
      invariant start <= |f.data| ==> f.off <= |f.data| && dst.data == old(dst.data) + f.data[start..f.off]
      decreases |f.data| - f.off
    {
      ghost var at := f.off;
      var chunk, eof := f.Read(COPY_CHUNK);
      if eof {
        return true;
      }
      assert start <= |f.data| ==> f.data[start..at] + chunk == f.data[start..f.off];
      ok := WriteOnce(dst, chunk);
      if !ok {
        return;
      }
    }
  }
}
