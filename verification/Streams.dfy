/** The byte sources and sinks every operation runs over, and the fold that models callbacks. */
module Streams {
  import opened Bytes

  /** What one call of a callback leaves behind: new captured state, and whether it returned an error. */
  datatype Step<S> = Continue(state: S) | Halt(state: S)

  /** Feeds items to a callback in order, stopping at the first one it rejects. */
  function Feed<S, X>(step: (S, X) -> Step<S>, state: S, items: seq<X>): Step<S>
    decreases |items|
  {
    if items == [] then
      Continue(state)
    else
      match step(state, items[0])
      case Halt(stopped) => Halt(stopped)
      case Continue(next) => Feed(step, next, items[1..])
  }

  lemma {:induction false} FeedAppend<S, X>(step: (S, X) -> Step<S>, state: S, xs: seq<X>, ys: seq<X>)
    ensures Feed(step, state, xs + ys) ==
            match Feed(step, state, xs)
            case Halt(stopped) => Halt(stopped)
            case Continue(next) => Feed(step, next, ys)
    decreases |xs|
  {
    if xs == [] {
      assert xs + ys == ys;
    } else {
      assert (xs + ys)[1..] == xs[1..] + ys;
      match step(state, xs[0])
      case Halt(_) =>
      case Continue(next) => FeedAppend(step, next, xs[1..], ys);
    }
  }

  /** Nothing fed leaves the state alone; one more item takes one step, unless an earlier one was rejected. */
  lemma FeedInTurn<S, X>(step: (S, X) -> Step<S>, state: S, xs: seq<X>, x: X)
    ensures Feed(step, state, []) == Continue(state)
    ensures Feed(step, state, xs + [x]) ==
            if Feed(step, state, xs).Halt? then Feed(step, state, xs) else step(Feed(step, state, xs).state, x)
  {
    FeedAppend(step, state, xs, [x]);
    assert [x][1..] == [];
  }

  lemma HaltIsFinal<S, X>(step: (S, X) -> Step<S>, init: S, xs: seq<X>, all: seq<X>)
    requires xs <= all && Feed(step, init, xs).Halt?
    ensures Feed(step, init, all) == Feed(step, init, xs)
  {
    assert all == xs + all[|xs|..];
    FeedAppend(step, init, xs, all[|xs|..]);
  }

  lemma FedOneMore<S, X>(step: (S, X) -> Step<S>, init: S, fed: seq<X>, x: X, all: seq<X>)
    requires fed + [x] <= all && Feed(step, init, fed).Continue?
    ensures Feed(step, init, fed + [x]) == step(Feed(step, init, fed).state, x)
    ensures step(Feed(step, init, fed).state, x).Halt? ==>
      Feed(step, init, all) == step(Feed(step, init, fed).state, x)
  {
    FeedAppend(step, init, fed, [x]);
    assert [x][1..] == [];
    if Feed(step, init, fed + [x]).Halt? {
      HaltIsFinal(step, init, fed + [x], all);
    }
  }

  /** The same from position i on, without cutting the items apart. */
  function FeedFrom<S, X>(step: (S, X) -> Step<S>, state: S, items: seq<X>, i: nat): Step<S>
    requires i <= |items|
    decreases |items| - i
  {
    if i == |items| then
      Continue(state)
    else
      match step(state, items[i])
      case Halt(stopped) => Halt(stopped)
      case Continue(next) => FeedFrom(step, next, items, i + 1)
  }

  lemma {:induction false} FeedFromIsFeed<S, X>(step: (S, X) -> Step<S>, state: S, items: seq<X>, i: nat)
    requires i <= |items|
    ensures FeedFrom(step, state, items, i) == Feed(step, state, items[i..])
    decreases |items| - i
  {
    if i < |items| {
      assert items[i..][0] == items[i] && items[i..][1..] == items[i + 1..];
      match step(state, items[i])
      case Halt(_) =>
      case Continue(next) => FeedFromIsFeed(step, next, items, i + 1);
    }
  }

  datatype ReadStatus = More | AtEnd | Failed

  /** bufio.Reader gives up once this many reads in a row have returned nothing. */
  const MAX_EMPTY_READS := 100

  /** A seekable reader. Each Read returns an arbitrary number of bytes, may report the end together with the
      last bytes or in a separate call, and may fail. idle bounds how often it returns nothing without an error.
      faulted tells whether a read or a seek has failed, stalled whether a read has returned nothing at all. */
  class Source {
    const data: seq<byte>
    var off: nat
    var idle: nat
    ghost var faulted: bool
    ghost var stalled: bool

    constructor (data: seq<byte>, idle: nat)
      ensures this.data == data && off == 0 && this.idle == idle && !faulted && !stalled
    {
      this.data := data;
      this.off := 0;
      this.idle := idle;
      this.faulted, this.stalled := false, false;
    }

    /** A read or a seek has failed, or a read has returned nothing: a reader may have given up. */
    ghost predicate Unsteady()
      reads this
    {
      faulted || stalled
    }

    method Read(limit: nat) returns (chunk: seq<byte>, status: ReadStatus)
      requires limit > 0
      modifies this
      ensures |chunk| <= limit && off == old(off) + |chunk|
      ensures old(off) <= |data| ==> off <= |data| && chunk == data[old(off)..off]
      ensures old(off) > |data| ==> chunk == []
      ensures status == AtEnd ==> off >= |data|
      ensures idle <= old(idle)
      ensures chunk == [] && status == More ==> idle < old(idle)
      ensures faulted == (old(faulted) || status == Failed)
      ensures stalled == (old(stalled) || (chunk == [] && status == More))
    {
      status := *;
      chunk := [];
      if off < |data| {
        var n :| 0 <= n <= limit && off + n <= |data|;
        chunk := data[off..off + n];
        off := off + n;
      }
      if status == AtEnd && off < |data| {
        status := More;
      }
      if chunk == [] && status == More {
        if idle > 0 {
          idle := idle - 1;
        } else {
          status := if off < |data| then Failed else AtEnd;
        }
      }
      faulted := faulted || status == Failed;
      stalled := stalled || (chunk == [] && status == More);
    }

    method SeekTo(target: nat) returns (ok: bool)
      modifies this`off, this`faulted
      ensures off == if ok then target else old(off)
      ensures faulted == (old(faulted) || !ok)
    {
      ok := *;
      if ok {
        off := target;
      }
      faulted := faulted || !ok;
    }
  }

  datatype ByteRead = Got(b: byte) | End | Fault

  /** bufio.Reader: hands out bytes one at a time from windows of whatever size the source delivered. */
  class BufReader {
    const src: Source
    var window: seq<byte>
    var stored: ReadStatus

    ghost predicate Valid()
      reads this, src
    {
      src.off <= |src.data| && (stored == AtEnd ==> src.off == |src.data|) && (stored == Failed ==> src.faulted)
    }

    /** The bytes not yet handed out. */
    ghost function Remaining(): seq<byte>
      requires Valid()
      reads this, src
    {
      window + src.data[src.off..]
    }

    constructor (src: Source)
      requires src.off <= |src.data|
      ensures Valid() && this.src == src && Remaining() == src.data[src.off..]
    {
      this.src := src;
      this.window := [];
      this.stored := More;
    }

    method ReadByte() returns (r: ByteRead)
      requires Valid()
      modifies this, src
      ensures Valid()
      ensures r.Got? ==> old(Remaining()) == [r.b] + Remaining()
      ensures r.End? ==> old(Remaining()) == [] && Remaining() == []
      ensures r.Fault? ==> Remaining() == old(Remaining()) && src.Unsteady()
    {
      var empty := 0;
      while window == []
        invariant Valid() && Remaining() == old(Remaining()) && (empty > 0 ==> src.stalled)
        decreases |window| == 0, |src.data| - src.off, src.idle, stored == More
      {
        if stored == AtEnd {
          return End;
        }
        if stored == Failed || empty == MAX_EMPTY_READS {
          return Fault;
        }
        window, stored := src.Read(4096);
        if window == [] && stored == More {
          empty := empty + 1;
        }
      }
      r := Got(window[0]);
      window := window[1..];
    }
  }

  /** An io.Writer. A write may be short; as io.Writer requires, it then either made progress or failed.
      faulted tells whether a write has failed, cut whether one has come up short. */
  class Sink {
    var data: seq<byte>
    ghost var faulted: bool
    ghost var cut: bool

    constructor ()
      ensures data == [] && !faulted && !cut
    {
      data := [];
      faulted, cut := false, false;
    }

    method Write(chunk: seq<byte>) returns (n: nat, ok: bool)
      modifies this
      ensures n <= |chunk| && data == old(data) + chunk[..n]
      ensures ok && chunk != [] ==> n > 0
      ensures faulted == (old(faulted) || !ok) && cut == (old(cut) || n < |chunk|)
    {
      var m :| 0 <= m <= |chunk|;
      ok := *;
      n := m;
      if ok && n == 0 && chunk != [] {
        n := 1;
      }
      data := data + chunk[..n];
      faulted, cut := faulted || !ok, cut || n < |chunk|;
    }
  }

  /** Writes chunk in one call, and takes a short write for a failure. */
  method WriteOnce(w: Sink, chunk: seq<byte>) returns (ok: bool)
    modifies w
    ensures ok ==> w.data == old(w.data) + chunk
    ensures !ok ==> w.faulted || w.cut
    ensures old(w.data) <= w.data
  {
    var n, wrote := w.Write(chunk);
    ok := wrote && n == |chunk|;
  }

  /** Writes every byte of chunk, retrying short writes. */
  method WriteFull(w: Sink, chunk: seq<byte>) returns (ok: bool)
    modifies w
    ensures ok ==> w.data == old(w.data) + chunk
    ensures !ok ==> w.faulted && exists k :: 0 <= k <= |chunk| && w.data == old(w.data) + chunk[..k]
    ensures w.faulted == (old(w.faulted) || !ok)
  {
    var rest := chunk;
    ghost var k := 0;
    while rest != []
      invariant 0 <= k <= |chunk| && rest == chunk[k..] && w.data == old(w.data) + chunk[..k]
      invariant w.faulted == old(w.faulted)
      decreases |rest|
    {
      var n, wrote := w.Write(rest);
      assert chunk[..k] + rest[..n] == chunk[..k + n];
      rest := rest[n..];
      k := k + n;
      if !wrote {
        return false;
      }
    }
    ok := true;
  }
}
