/** Deciding whether a transform would change a source, without writing a byte. */
module Inspection {
  import opened Streams
  import opened Lines
  import opened Transform
  import opened TransformStream
  import opened WouldChange

  /** The stats-only inspection of a file: would any byte change? */
  method InspectWouldChange(src: Source, opts: TransformOptions) returns (ok: bool, stats: Stats, would: bool)
    requires src.off == 0
    modifies src
    ensures ok ==> stats == StatsOf(ReadLines(src.data), opts)
    ensures ok ==> (would <==> TransformBytes(src.data, opts) != src.data)
    ensures ok ==> src.off == |src.data|
    ensures !ok ==> src.Unsteady()
  {
    ok, stats := RunTransformStream(src, opts, null, null, 0);
    would := WouldChangeFromStats(opts, stats);
    WouldChangeIsExact(src.data, opts);
    assert src.data[0..] == src.data;
  }
}
