# Verified model of the glyph-shift file surgery engine

glyph-shift edits, splits and extracts text files without ever losing a byte. Its engine, `internal/fileops`, has a
fast streaming form beside a simple in-memory form for almost every operation, and its publication code promises that
a file is either replaced completely or left alone. This project models those operations in Dafny and proves what the
two forms share and what the promises amount to.

`dafny verify dfyconfig.toml` checks everything.

## How to read it

| file | what it models |
|---|---|
| `Bytes`, `Streams` | bytes, readers that chunk and fail as they like, writers that may write short, callbacks |
| `Lines`, `Transform`, `WouldChange`, `Idempotence` | the line reader, the in-memory transform, the would-change verdict, transforming twice |
| `PendingWhitespace`, `TransformStream`, `Inspection` | the spilling whitespace queue, the byte-at-a-time transform in both modes, the stats-only inspection |
| `Spans`, `Scanner` | line spans and the sliding-window scanner over a stream its callbacks share |
| `Naming`, `Split`, `SplitLaws`, `SplitScan` | output names, the split machine, its laws, the scanner object and the replay into lines |
| `Blocks`, `BlocksScan` | the in-memory block loop, the seekable block machine, and their agreement |
| `SpanCopy`, `LiteralSearch`, `Extract` | copying and fingerprinting a span, the chunked literal search, extraction by plan and by stream |
| `PlainLines`, `PlainTransform`, `PlainSplit`, `PlainBlocks`, `PlainExtract` | the same results told by byte values, lines, patterns and numbers alone |
| `FileSessions`, `AtomicPublish`, `Commit`, `Pipeline`, `ExtractPipeline` | a file system whose operations may fail, the two publication protocols, split, blocks and extract end to end |

* **Readers and writers.** A `Source` returns any number of bytes per read, reports the end with the last bytes or after
  them, may return nothing a bounded number of times, and may fail at any point. A `Sink` may write short. Every result
  about a run therefore holds for every chunking and every fault. A scanned source has at most 2^63 - 1 bytes, the largest
  offset a Go seeker can express.
* **Failure at any step.** Fallible operations choose freely whether they succeed. Ghost flags remember that they did not:
  `faulted` a read, seek, write or file operation that failed, `stalled` a read that returned nothing (a buffered reader
  gives up after 100 of them in a row), `cut` a short write (which a copy or a buffered writer takes for an error). A
  contract that says `!ok ==> src.Unsteady()` says that the operation itself never gives up.
* **Callbacks.** Dafny methods cannot be passed around. The line reader and the scanner hand over one line at a time
  (`Next`, `NextSpan`) to the code that would be their callback. Where the callback is arbitrary it is a state value plus
  a step function, and `Feed` folds it over the items until it returns an error. The scanner objects of split and blocks
  run on the stream that is being scanned; each of their methods is proved to take the object exactly where the step
  function takes its state, and the laws are proved about the fold.
* **Other programs.** A `FileSession` logs, in order, what was done and what was observed: handles, locks, staging files,
  renames, and each pass over the guarded file. `Settled` says that the log opens and closes all of them in turn and
  exactly once; it holds on every exit of every operation. A pass observes an arbitrary byte sequence, which covers every interleaving with
  writers that ignore the lock, even in the middle of a pass; bytes that turn up behind a reported end are its
  `later` part. Only
  a held lock allows a pass. In `Pipeline` the source may hold different bytes at every write.
* **Plain laws.** The `Plain` modules, and the last clauses of the main contracts, say every result once more in byte
  values, line numbers, lines and numbers of the caller's own, without the definitions the rest of the project shares
  between code and specification. What a line ending, a delimiter, a block, an output name or an appended file is does
  not rest on one definition alone.
* **SHA-256** (FIPS 180-4, section 6.2) is an arbitrary function. Conclusions say "equal, or these two sequences collide".
* **Patterns** are arbitrary predicates on a line's content.

## Where the code and its documentation part ways

The model follows the code. Each of these is a theorem here, not a remark.

* `docs/glyph-shift-intent.md:202` calls the transform idempotent. `Idempotence` proves exactly when it is. With target LF
  or CRLF that is on sources without two adjacent CRs; with target CR, or with trimming and no target, a second pass can
  add a final newline because the reader takes the second of two CRs as content (`TwiceToCRDiffers`,
  `TwiceTrimmedDiffers`), and `IdempotentOtherwise` tells from the lines of the source when it does.
* `internal/fileops/extract_span.go:32` names an error for a case that validation is meant to exclude. A negative start
  passes validation, so the error is reachable, and there a streamed extraction succeeds with nothing
  (`MissingSpanIsReachable`, `SeekableIsExpected`).
* `internal/fileops/split_blocks_scan.go:172-174` says that restoring the saved offset alone would strand the scanner. The
  offset is saved behind the scanner's read-ahead and is never before the end of the span, so the larger of the two is
  always the saved one (`Scanner.ScannerState.RestoreOffset`).
* `internal/fileops/linespan_scan_state.go:90-104` waits for the byte behind a CR. `haveByteAbs` has by then either
  delivered it or seen the end of the stream, so the loop is never entered; `EnsureSecondByteForCRLF` proves that in the
  place where the source would enter it.
* `cmd/blocks.go:65` describes the blocks cap as counting empty blocks. It counts non-empty ones only
  (`BlocksScan.CapIsExact`).
* The split cap with stripping can refuse a split that would have met it (`StrippedCapIsConservative`); `CapIsExact` says
  precisely when.
* Planning an empty range reports the normalized start, extraction reports the start as given
  (`internal/fileops/extract_normalize.go:23` and `internal/fileops/extract.go:163`); `PlanIsExact` and `Expected` keep the
  difference.

## Model

| member | source | states |
|---|---|---|
| `Lines.ReadLinesKeepsBytes` | internal/fileops/lineio.go:80-141 | the lines read from any source spell exactly that source |
| `Lines.DivisionIsUnique` | internal/fileops/lineio.go:80-141 | `ReadLines(s)` is the one and only well-divided list of lines that spells `s` (if and only if) |
| `Lines.RereadSerialized` | internal/fileops/lineio.go:112-141 | round trip: reading the serialization of any well-divided list gives the list back |
| `Lines.PlainIffNoAdjacentCR` | internal/fileops/lineio.go:112-133 | a CR inside a content shows up exactly when the source has two adjacent CRs (or one was carried in) |
| `PlainLines.ReadLinesInBytes` | internal/fileops/lineio.go:80-141 | in byte values: the lines spell the source; each but the last ends with LF, CR or both; no content holds an LF, nor a CR except first behind a line that a lone CR ended; such a line is not empty |
| `PlainLines.SerializeInBytes` | internal/fileops/lineio.go:180-194 | one line is written as its content and its terminator, lists one behind the other, nothing as nothing |
| `Lines.LineStream.Next` | internal/fileops/lineio.go:58-100 | for every chunking of the reads: the next line of what remains, the end exactly when nothing remains, or a read that failed |
| `Lines.ForEachLineFrom` | internal/fileops/lineio.go:34-65 | the callback is fed the lines of the source, in order, up to its first error; after a failed read it has been fed a prefix of them |
| `Lines.LineStream.HandleCarriageReturn` | internal/fileops/lineio.go:112-133 | the byte behind a CR completes CRLF, or is taken as content even when it is another CR |
| `Lines.LineStream.FlushTrailing` | internal/fileops/lineio.go:135-141 | an unterminated rest is delivered once, and only if there is one |
| `Lines.ReadLinesFrom` | internal/fileops/lineio.go:34-36 | the result is the unique division of the source; there is none only when a read failed or stalled |
| `Lines.WriteLinesTo` | internal/fileops/lineio.go:180-194 | success appends exactly the serialization; failure is a failed write and leaves some prefix of it |
| `Streams.WriteFull` | internal/fileops/lineio.go:162-177 | all bytes written on success; on failure some prefix of them, whatever the pattern of short writes |
| `Streams.FeedInTurn` | internal/fileops/lineio.go:34-65 | a callback that is fed nothing keeps its state; fed one item more it takes one step, unless it rejected one before |
| `Transform.TransformLines` | internal/fileops/transform.go:241-277 | the in-place passes over the copied lines give the mapped lines with at most one added terminator, and each counter counts the source lines it names |
| `Transform.ApplyLineEndings` | internal/fileops/transform.go:178-195 | in place: every terminated line gets the target terminator, unterminated ones stay, and the count is of lines that differed |
| `Transform.ApplyTrimTrailing` | internal/fileops/transform.go:197-209 | in place: every content loses exactly its trailing blanks; the count is of lines that had some |
| `Transform.ApplyFinalNewline` | internal/fileops/transform.go:211-224 | only an unterminated last line changes, and only its terminator |
| `Transform.TrimTrailingSpacesTabs` | internal/fileops/transform.go:88-99 | the loop cuts back to the longest prefix that does not end in a blank and tells whether anything went |
| `Transform.TrimBlanksIsLongest` | internal/fileops/transform.go:88-99 | no longer prefix ends without a blank |
| `Transform.LineEndingStats` | internal/fileops/transform.go:147-176 | found and converted counts per terminator kind |
| `Transform.FinalNewlineComesLast` | internal/fileops/transform.go:211-224 | the final-newline option adds exactly one terminator at the very end of the mapped bytes, or nothing |
| `PlainTransform.LinesGoOut` | internal/fileops/transform.go:178-224 | on any lines, in byte values: a list is the transformed lines if and only if every content is kept, or loses exactly the blanks it ends in, and every terminator is kept, or is LF, CRLF or CR as asked, with the final one added as asked and LF without a target |
| `PlainTransform.TransformInBytes` | internal/fileops/transform.go:241-277 | the bytes of the transform are the source's lines gone out like this |
| `PlainTransform.TargetLFInBytes` | internal/fileops/transform.go:54-65 | with target LF, and with every number that names no target, a CR is left if and only if the source has two adjacent CRs |
| `PlainTransform.TargetCRInBytes` | internal/fileops/transform.go:54-65 | with target CR no LF is left |
| `PlainTransform.TargetCRLFInBytes` | internal/fileops/transform.go:54-65 | with target CRLF, on sources without two adjacent CRs, CR and LF stand only as the pair |
| `PlainTransform.StatsInBytes` | internal/fileops/transform.go:147-195 | each found counter is the number of lines that end so, each converted counter the number of those that did not end as asked, and the changes are the terminated lines that did not |
| `PlainTransform.TrimsCounted` | internal/fileops/transform.go:197-224 | the trimmed counter is the number of lines that end in a blank; the final newline is counted exactly for an unterminated last line; without a target nothing is converted |
| `WouldChange.ChangesNeverCancel` | internal/fileops/transform_file.go:88-113 | whatever combination of lines is changed, the serialization differs from the original: edits of different lines never cancel out |
| `WouldChange.WouldChangeIsExact` | internal/fileops/transform_file.go:88-113 | for every source and option set the verdict drawn from the counters is true if and only if the transformed bytes differ |
| `WouldChange.CountersSeeLines` | internal/fileops/transform_file.go:91-113 | a counter the verdict looks at is positive if and only if some line is changed |
| `Idempotence.IdempotentForLFAndCRLF` | docs/glyph-shift-intent.md:202 | for targets LF and CRLF, any other options, transforming twice equals transforming once if and only if the source has no two adjacent CRs |
| `Idempotence.IdempotentOtherwise` | docs/glyph-shift-intent.md:202 | for target CR or no target, on every source: twice equals once if and only if no final newline is asked for, or the last line does not go out with a CR, or the CRs that the outgoing lines end in are odd in number, counted backwards over the lines of the source |
| `Idempotence.IdempotentWithoutTargetOrTrim` | internal/fileops/transform.go:211-224 | with the final-newline option alone, or no option, twice always equals once |
| `Idempotence.TwiceToCRDiffers` | internal/fileops/transform.go:178-224 | a concrete input on which the documented idempotence fails for target CR |
| `Idempotence.TwiceTrimmedDiffers` | internal/fileops/transform.go:197-224 | a concrete input on which it fails for trimming without a target |
| `Idempotence.TrimIsStable` | internal/fileops/transform.go:88-99 | after one transform with trimming no line has trailing blanks left, as re-read |
| `PendingWhitespace.MemSpillFile.Read` | internal/fileops/transform_stream_spill_mem.go:49-58 | bytes from the offset on, at least one unless at the end |
| `PendingWhitespace.MemSpillFile.Write` | internal/fileops/transform_stream_spill_mem.go:60-72 | overwrites at the offset, growing the file as needed |
| `PendingWhitespace.MemSpillFile.Seek` | internal/fileops/transform_stream_spill_mem.go:74-96 | where each origin leads, and which seeks are refused |
| `PendingWhitespace.PendingQueue.SpillOlderHalf` | internal/fileops/transform_stream_pending.go:70-93 | moves bytes between buffer and scratch file without changing the queue; the buffer shrinks |
| `PendingWhitespace.PendingQueue.Push` | internal/fileops/transform_stream_pending.go:95-109 | the byte joins the end of the queue, the buffer stays within its limit, the spill loop ends; it fails exactly when the buffer is full and there is no scratch storage |
| `PendingWhitespace.PendingQueue.FlushTo` | internal/fileops/transform_stream_pending.go:111-133 | writes all queued bytes, oldest first, and leaves the queue empty; fails only when a write fails or comes up short |
| `PendingWhitespace.PendingQueue.Discard` | internal/fileops/transform_stream_pending.go:31-48 | empties the queue and gives up the scratch file |
| `TransformStream.Stream.EmitContentByte` | internal/fileops/transform_stream_methods.go:22-76 | one content byte keeps output, pending queue and counters in step with the current line, in both modes; without a fault it fails only when the text so far has more blanks in a row than there is room for |
| `TransformStream.Stream.CompleteTerminated` | internal/fileops/transform_stream_methods.go:128-201 | a line that ended in a terminator joins the lines done, written transformed and counted; it fails only when the writer or the scratch storage does |
| `TransformStream.Stream.CompleteLast` | internal/fileops/transform_stream_methods.go:99-201 | the same for an incomplete last line, with the final newline it may need |
| `TransformStream.Stream.HandleCR` | internal/fileops/transform_stream_methods.go:78-97 | the one-byte lookahead divides the rest exactly as the line reader does |
| `TransformStream.Stream.FlushAtEOF` | internal/fileops/transform_stream_methods.go:203-211 | the unterminated rest becomes the last line, with the final newline it may need |
| `TransformStream.Stream.Run` | internal/fileops/transform_stream_methods.go:213-239 | a successful run has done exactly the lines of the source; any other has a failed read or write behind it or ran out of room for blanks, and a text that needs more room never succeeds |
| `TransformStream.RunTransformStream` | internal/fileops/transform_stream.go:43-99 | for every source, options, chunking and buffer limit: the bytes written are those of the in-memory transform, the source's lines gone out line by line as `PlainTransform` tells, and write mode and stats-only mode report its counters; without a fault it fails if and only if a run of blanks to be held back is longer than the buffer (65536 bytes unless asked otherwise) and there is no scratch storage |
| `Inspection.InspectWouldChange` | internal/fileops/transform_file.go:115-133 | the stats-only pass says "would change" if and only if the write pass would emit other bytes; it fails only when a read failed or stalled |
| `Spans.SpansTile` | internal/fileops/linespan_scan_state.go:5-108 | on every source the spans are numbered from 1, contiguous, non-empty, cover the source, and end exactly where lines end |
| `Spans.TilingIsUnique` | internal/fileops/linespan_scan_state.go:40-75 | those laws have exactly one solution |
| `Spans.SpanLinesKeepBytes` | internal/fileops/linespan_scan.go:134-201 | the spans, read as lines, spell the source on every input |
| `Spans.ReadersAgreeIffNoAdjacentCR` | internal/fileops/linespan_scan_state.go:48-75 | scanner and line reader divide a source into the same lines if and only if it has no two adjacent CRs |
| `PlainLines.SpanLinesInBytes` | internal/fileops/linespan_scan_state.go:5-108 | in byte values: the span lines spell the source, no content holds LF or CR, each but the last ends with LF, CR or both, no pair is torn apart, and span i has number i + 1 and lies where line i does |
| `Scanner.ScannerState.DropBufferedBeforeCursor` | internal/fileops/linespan_scan_buffer.go:30-43 | in-place compaction keeps the window equal to the source at the new base |
| `Scanner.ScannerState.GrowBuf` | internal/fileops/linespan_scan_buffer.go:45-54 | a strictly larger buffer with the same window |
| `Scanner.ScannerState.EnsureTailCapacity` | internal/fileops/linespan_scan_buffer.go:68-83 | room for at least one byte behind the window, nothing lost |
| `Scanner.ScannerState.RefillTail` | internal/fileops/linespan_scan_buffer.go:56-99 | the window grows by what was read or the end is known, and the stream stands right behind the window |
| `Scanner.ScannerState.HaveByteAbs` | internal/fileops/linespan_scan_buffer.go:17-28 | without a fault, true exactly for offsets inside the source, and then the byte is in the window; it terminates |
| `Scanner.ScannerState.EnsureSecondByteForCRLF` | internal/fileops/linespan_scan_state.go:78-104 | the lookahead across refills answers whether a byte follows the CR; the waiting loop behind it is never entered |
| `Scanner.ScannerState.SaveOffset` | internal/fileops/split_blocks_scan.go:175-184 | the offset noted before a callback is right behind the read-ahead, never before the end of the line |
| `Scanner.ScannerState.RestoreOffset` | internal/fileops/split_blocks_scan.go:186-197 | whatever the callback did to the shared stream, a successful seek puts the scanner back in a valid state; the larger of the two offsets is the saved one |
| `Scanner.ScannerState.EmitTerminated` | internal/fileops/linespan_scan.go:175-201 | the line that ends at the cursor is the next span of the source |
| `Scanner.ScannerState.FinalizeTrailing` | internal/fileops/linespan_scan.go:134-173 | hands over the unterminated last line exactly when there is one; otherwise all spans have been handed over |
| `Scanner.ScannerState.HandleCR` | internal/fileops/linespan_scan_state.go:48-75 | a CR ends its line alone or with the LF behind it; any other byte behind it is looked at afresh |
| `Scanner.ScannerState.NextSpan` | internal/fileops/linespan_scan_state.go:5-38 | the next span of the source, in order, or the end exactly when there is none, or a stream that failed or stalled; it terminates |
| `Scanner.ScanLineSpans` | internal/fileops/linespan_scan.go:79-111 | for every chunk size, every pattern of short reads and every callback that seeks and reads the same stream: the callback sees the spans of the source up to its first error; when the stream fails it has seen a prefix of them, and its state is that of exactly this prefix |
| `Scanner.FirstPreambleLineSpan` | internal/fileops/split_blocks_scan_support.go:123-136 | the nested scan finds the first span of the source, or none exactly when there is none or the stream failed, and puts the stream back unless that seek failed |
| `Naming.SequentialNamesDiffer` | internal/fileops/naming.go:66-72 | different positions never get the same name, at any width |
| `Naming.SequentialNameReads` | internal/fileops/naming.go:66-72 | the name of output n ends in the extension; before it stand decimal digits only, at least three, more than three only without a leading zero, and they read n |
| `Naming.ValueIsDecimal` | internal/fileops/naming.go:66-72 | digits are read in base ten |
| `Naming.CandidateReads` | internal/fileops/naming.go:127-152 | a deduplicated name is the stem, a dash, the number in decimal and the extension, which starts at the last dot behind the last separator |
| `Naming.DeduplicateFilename` | internal/fileops/naming.go:127-152 | the search ends; a free name is kept, a taken one gets the least free suffix from 2 on |
| `Naming.NextNameIsFree` | internal/fileops/naming.go:127-152 | the next sequential name is never among those given out, so sequential names never need a suffix |
| `Naming.ApplyExplicitBasenames` | internal/pipeline/explicit_names.go:196-216 | accepted names are pairwise distinct under the comparison key; a refusal names the first fragment that is invalid or repeats an earlier one |
| `Split.GroupsPartition` | internal/fileops/split_blocks_scan_split_seekable.go:267-301 | the groups are the given lines, cut right before each delimiter line and nowhere else |
| `Split.GeometryOfOpenGroup` | internal/fileops/split_blocks_scan_support.go:177-203 | line numbers and offsets worked out arithmetically are those of the pending group, with and without stripping |
| `Split.FinalizeCloses` | internal/fileops/split_blocks_scan_split_seekable.go:93-190 | finalizing adds exactly the section of the open group, or nothing when its body is empty |
| `Split.FlushCloses` | internal/fileops/split_blocks_scan_split_seekable.go:47-91 | the preamble flush adds exactly the lines before the first delimiter |
| `Split.ScanOf` | internal/fileops/split_blocks_scan_split_seekable.go:267-317 | over any run of spans the machine fails exactly when the cap is exceeded and otherwise holds the sections of the groups |
| `SplitLaws.MachineYieldsOutcome` | internal/fileops/split_blocks_scan_split_seekable.go:319-368 | the whole scan ends with the sections of the source, no-match or the cap; the empty-segment error is never raised |
| `SplitLaws.OutputsSpellKeptLines` | internal/fileops/split_blocks_scan_support.go:177-203 | the outputs in order spell exactly the kept lines in order |
| `SplitLaws.OutputsPartitionSource` | internal/fileops/split_blocks_scan_split_seekable.go:47-190 | with delimiters kept the outputs concatenate to the source; with stripping to the source minus its delimiter lines |
| `SplitLaws.SectionsAreWindows` | internal/fileops/split_blocks_scan_split_seekable.go:93-190 | sections are ordered windows with nothing between them, or with stripping only delimiter lines; their number is that of the lines that start one; names and fingerprints are theirs |
| `SplitLaws.SectionCount` | internal/fileops/split_blocks_scan_split_seekable.go:93-190 | with delimiters kept: one section for each delimiter line, and one more if the first line is none |
| `SplitLaws.WindowIsByteSpan` | internal/fileops/split_blocks_scan_split_seekable.go:157-190 | each byte span is the serialization of exactly the lines of its window |
| `SplitLaws.CapIsExact` | internal/fileops/split_blocks_scan_support.go:40-54 | fails with max-files if and only if the true number of sections exceeds a positive cap; with stripping a delimiter line at the end counts as one more |
| `SplitLaws.SuccessIsWithinCap` | internal/fileops/split_blocks_scan_split_seekable.go:40-45 | no success puts out more sections than the cap |
| `SplitLaws.StrippedCapIsConservative` | internal/fileops/split_blocks_scan_split_seekable.go:267-301 | a concrete stripping split that is refused although it would have met its cap |
| `PlainSplit.NothingToSplit` | internal/fileops/split_blocks_scan_split_seekable.go:303-391 | the scan ends in no-match if and only if the content of no line matches |
| `PlainSplit.SectionsInLines` | internal/fileops/split_blocks_scan_split_seekable.go:93-190 | by lines and pattern alone: as many sections as lines that start one; with delimiters kept the matching lines, plus one if the first line does not match, each section right behind the one before it up to the last line; numbers, name, bytes, digest and delimiter line of every section |
| `PlainSplit.OutputsInLines` | internal/fileops/split_blocks_scan_split_seekable.go:157-190 | the outputs concatenate to the source, or with stripping to exactly the lines whose content does not match |
| `PlainSplit.CapInLines` | internal/fileops/split_blocks_scan_support.go:40-54 | by lines and pattern alone: when the cap stops the scan, with which numbers, and that there is no third error |
| `PlainSplit.SplitInLines` | internal/fileops/split_blocks_scan_split_seekable.go:319-357 | all of this for the outcome that the scan is proved to give |
| `SplitScan.SplitSeekScanner.PushSection` | internal/fileops/split_blocks_scan_split_seekable.go:40-45 | the object is the machine: section, count, name set and cap check after one push |
| `SplitScan.SplitSeekScanner.FlushPreamble` | internal/fileops/split_blocks_scan_split_seekable.go:47-91 | the same for the preamble, at most once |
| `SplitScan.SplitSeekScanner.FinalizePendingBeforeNextDelim` | internal/fileops/split_blocks_scan_split_seekable.go:93-146 | the same for the pending section |
| `SplitScan.SplitSeekScanner.ObserveDelimiterLine` | internal/fileops/split_blocks_scan_split_seekable.go:267-301 | the same for a delimiter line, with every early exit |
| `SplitScan.SplitSeekScanner.ObserveSplitLineSpanOnSeeker` | internal/fileops/split_blocks_scan_split_seekable.go:303-391 | one line, matched and fingerprinted on the stream that is being scanned, takes the object where the step function takes its state |
| `SplitScan.FeedScanner` | internal/fileops/split_blocks_scan.go:175-200 | the same between saving and restoring the offset: the line scanner can go on |
| `SplitScan.ScanLine` | internal/fileops/split_blocks_scan_split_seekable.go:319-357 | after each line the object stands where the fold of the step function over the spans so far stands |
| `SplitScan.SplitSeekScanner.Finish` | internal/fileops/split_blocks_scan_split_seekable.go:319-357 | closing the last section at the end of the source |
| `SplitScan.ScanSplitSectionsMeta` | internal/fileops/split_blocks_scan.go:76-94 | running the object over a stream its callback seeks and reads gives the outcome of the source, as `PlainSplit` tells it by lines and pattern; there is none only when the stream failed or stalled |
| `SplitScan.SplitSectionReplay.OnLine` | internal/fileops/split.go:123-149 | the advancing hint and the early stop, line by line |
| `SplitScan.ReplayIsExact` | internal/fileops/split.go:107-172 | each line lands in the one section whose window holds it, lines in no window are dropped, and stopping early loses nothing |
| `SplitScan.WindowTakesLines` | internal/fileops/split.go:129-149 | the window of a section is the lines from its first to its last line number, as far as there are lines |
| `SplitScan.ReplaySplitMetas` | internal/fileops/split.go:151-172 | the replay object, run over the line reader, holds exactly the window of each section |
| `SplitScan.SplitIntoLines` | internal/fileops/split.go:51-97 | the library helper returns exactly the window of each section, or the error of the scan |
| `SplitScan.HelperSectionsMatchByteSpans` | internal/fileops/split.go:79-172 | without adjacent CRs each helper section serializes to the byte span planned for it |
| `Blocks.NextMatchIsFirst` | internal/fileops/blocks.go:76-143 | the reference block search picks the first match and skips none |
| `Blocks.BuildBlock` | internal/fileops/blocks.go:168-184 | an empty block yields nothing and uses no name; any other gets the next name and its lines |
| `Blocks.ScanBlocks` | internal/fileops/blocks.go:76-155 | the loop finds exactly the reference blocks and reports unclosed before none-found |
| `PlainBlocks.BlocksAreBlocks` | internal/fileops/blocks.go:76-143 | by lines and patterns alone: each block opens at the next line that matches the start pattern and closes at the next one behind it that matches the end pattern; behind the last block there is no start line, or one that nothing closes |
| `PlainBlocks.MemoryInLines` | internal/fileops/blocks.go:76-184 | the in-memory scan by these blocks: unclosed before none-found, otherwise each block with inner lines goes out in order, numbered, with exactly its lines |
| `BlocksScan.MachineYieldsOutcome` | internal/fileops/split_blocks_scan_blocks.go:19-56 | the whole scan ends with the reference blocks, the unclosed start line, none-found or the cap |
| `BlocksScan.CloseAllYields` | internal/fileops/split_blocks_scan_blocks.go:137-203 | the cap stops the scan exactly when too many non-empty blocks have closed; otherwise every one of them has its metadata, in order |
| `BlocksScan.BlockIsByteSpan` | internal/fileops/split_blocks_scan_blocks.go:205-216 | each byte span is the serialization of the block, with or without its delimiter lines |
| `BlocksScan.SeekableAndMemoryAgree` | internal/fileops/blocks.go:76-184 | without adjacent CRs and without a cap both scans give the same error, or the same blocks, names and bytes |
| `BlocksScan.CapIsExact` | internal/fileops/split_blocks_scan_blocks.go:137-154 | fails with max-files if and only if the non-empty closed blocks exceed a positive cap |
| `PlainBlocks.BlocksInLines` | internal/fileops/split_blocks_scan_blocks.go:19-216 | the seekable scan by these blocks: too many, unclosed and none-found in this order, otherwise line numbers, counts, name, bytes and digest of every block with inner lines, in order, and how many were found and discarded |
| `BlocksScan.BlocksSeekScanner.CloseBlock` | internal/fileops/split_blocks_scan_blocks.go:137-203 | the object is the machine when a block closes: counts, cap, name set, metadata |
| `BlocksScan.BlocksSeekScanner.RecordInnerBlockLine` | internal/fileops/split_blocks_scan_blocks.go:127-134 | first, last and number of inner lines |
| `BlocksScan.BlocksSeekScanner.HandleLineSpan` | internal/fileops/split_blocks_scan_blocks.go:82-134 | one line, matched and fingerprinted on the stream that is being scanned, takes the object where the step function takes its state |
| `BlocksScan.FeedScanner` | internal/fileops/split_blocks_scan.go:175-200 | the same between saving and restoring the offset: the line scanner can go on |
| `BlocksScan.ScanLine` | internal/fileops/split_blocks_scan_blocks.go:19-56 | after each line the object stands where the fold of the step function over the spans so far stands |
| `BlocksScan.ScanBlocksMeta` | internal/fileops/split_blocks_scan.go:138-160 | running the object over a stream its callback seeks and reads gives the outcome of the source; there is none only when the stream failed or stalled |
| `SpanCopy.SerializedSpanSeekAndLength` | internal/fileops/extract_span.go:145-160 | accepted exactly when the bounds are ordered and both numbers fit; offset plus length is the end |
| `SpanCopy.SeekSourceToAbsolute` | internal/fileops/span_fingerprint.go:41-56 | on success the stream stands at the offset, which lies within the source |
| `SpanCopy.CopySourceSpanChunks` | internal/fileops/span_fingerprint.go:128-210 | exactly the requested bytes arrive; a copy fails only on a fault of either end or a source that is too short |
| `SpanCopy.SHA256SerializedByteSpan` | internal/fileops/span_fingerprint.go:61-87 | the digest of exactly that span; fails only on a fault or bounds that do not fit the source |
| `SpanCopy.CopySpanToWriterWithSHA256Verify` | internal/fileops/span_fingerprint.go:93-125 | success if the bytes that arrived are the span as it is now and hash as wanted; a mismatch is reported only when they do not |
| `LiteralSearch.OverlapSuffices` | internal/fileops/linespan_match_literal.go:151-187 | an occurrence completed by a new chunk is visible in the overlap plus that chunk, and nothing else is |
| `LiteralSearch.OccursReads` | internal/fileops/linespan_match_literal.go:124-173 | a literal occurs if and only if the text is something, the literal, and something |
| `LiteralSearch.AppendLiteralWindow` | internal/fileops/linespan_match_literal.go:151-187 | matched exactly when the literal occurs in all that was read; between reads at most its length minus one bytes are kept |
| `LiteralSearch.ContainsLiteralInReader` | internal/fileops/linespan_match_literal.go:124-173 | true if and only if the literal occurs in the content, for every chunking; there is no answer only when a read failed |
| `LiteralSearch.MatchLiteralLineSpan` | internal/fileops/linespan_match_literal.go:70-122 | decides equality or occurrence on the content of the line alone, never on bytes behind it |
| `LiteralSearch.MatchLineSpan` | internal/fileops/linespan_match.go:42-71 | on the stream, with or without the literal fast path, the pattern is decided on the content of the line |
| `Extract.PlanIsExact` | internal/fileops/extract_span.go:23-121 | on every source and every range, negative ones too: which error planning reports, or a byte span that spells exactly the selected lines, counted |
| `Extract.SelectedIsWindow` | internal/fileops/extract_span.go:42-60 | the lines in range form one window |
| `Extract.SeekableIsExpected` | internal/fileops/extract.go:152-175 | a seekable extraction meets the line-by-line definition if and only if the range is not degenerate; exactly then it reports the missing-span error |
| `Extract.SucceedsWhenSatisfiable` | internal/fileops/extract_normalize.go:11-36 | for a start that is not negative: success if and only if the range is non-empty and the file long enough; the missing-span error is unreachable |
| `Extract.SeekableAndStreamAgree` | internal/fileops/extract.go:121-175 | without adjacent CRs seekable and streamed extraction give the same bytes, count and errors, except exactly on degenerate ranges |
| `Extract.MissingSpanIsReachable` | internal/fileops/extract_span.go:32-121 | the error said to be impossible occurs for a range like `-5-` on an empty file |
| `PlainExtract.SelectedAsAsked` | internal/fileops/extract_span.go:42-60 | the selected lines are those from the first to the last number asked for, an open or too small start meaning the first and an open or too large end the last |
| `PlainExtract.ExpectedInLines` | internal/fileops/extract.go:40-118 | which error a streamed extraction reports, with which numbers, or exactly these lines |
| `PlainExtract.SeekableInLines` | internal/fileops/extract.go:152-175 | the same for a seekable source, where a range that asks for no line is a missing span |
| `PlainExtract.PlanInLines` | internal/fileops/extract_span.go:66-121 | the plan: which error with which numbers, or the bytes of exactly these lines |
| `Extract.PlanExtractSerializedSpan` | internal/fileops/extract_span.go:66-121 | the planning scan, with its early stop, gives that plan |
| `Extract.ExtractDispatchClosed` | internal/fileops/extract.go:40-118 | the buffered form delivers exactly the selected lines after validating, and nothing when it refuses; a failed write leaves a prefix |
| `Extract.ExtractClosedRangeSelectedLines` | internal/fileops/extract.go:40-64 | the lines of a closed range, read up to its last line and no further |
| `Extract.ExtractOpenEndedToWriter` | internal/fileops/extract.go:66-90 | each selected line is written as it is read; a run that fails has written a prefix of what was selected |
| `Extract.ExtractDispatchOpen` | internal/fileops/extract.go:68-145 | the streaming form delivers exactly the selected lines, nothing when it refuses, and a prefix of them when a read or write fails |
| `Extract.ExtractTo` | internal/fileops/extract.go:152-175 | the whole operation from any offset of a seekable source: outcome as defined, destination extended by exactly those bytes, untouched on a refusal; no other end without a fault |
| `AtomicPublish.RejectExistingWhenCreate` | internal/fileops/atomic_publish.go:84-99 | a create goes on only past a destination its check did not see |
| `AtomicPublish.CopyExistingIfPresent` | internal/fileops/atomic_publish.go:225-254 | on success the staging file holds what an append starts from |
| `AtomicPublish.CleanupOnError` | internal/fileops/atomic_publish.go:178-206 | keeps the error, closes the staging file if that was not done, removes it or says that it could not; what it reports as failed did fail |
| `AtomicPublish.CompletePublish` | internal/fileops/atomic_publish.go:132-176 | from the callback on: one rename of the complete content or none, the staging file closed exactly once and before the rename, and left behind only by a removal that failed |
| `AtomicPublish.WriteContent` | internal/fileops/atomic_publish.go:132-146 | success means every chunk of the callback has arrived, in order, and the callback was content |
| `AtomicPublish.JoinedInOrder` | internal/fileops/atomic_publish.go:132-146 | the callback's chunks count one after the other, none left out |
| `AtomicPublish.Publish` | internal/fileops/atomic_publish.go:148-206 | with failures at any steps: success is, in one atomic step, the old content followed by everything the callback wrote when appending to a file that is there, and exactly what the callback wrote in every other case; an error is the old files; on every exit the log is settled, and a staging file is left only where its removal failed; create replaces nothing its check sees; without a fault the only errors are a missing callback, a destination that exists in create mode, and the callback's own |
| `FileSessions.EveryEventInTurn` | internal/fileops/safeio.go:93-112 | in a log that runs in turn, by counting what came before: a file is never opened twice, looked at only under its lock, and let go before a rename; a staging file is closed once for each time it was created |
| `FileSessions.SettledInCounts` | internal/fileops/safeio.go:353-368 | in a settled log every event comes in turn, and opened equals closed, locked equals unlocked, created equals closed |
| `Commit.OpenLocked` | internal/fileops/safeio.go:93-112 | a file is opened and locked, or everything opened is let go of in turn |
| `Commit.TransformSourceBodyReader` | internal/fileops/transform_file.go:33-68 | classifies by a null among the first 8000 bytes up to the first reported end, and by nothing else; the body is those bytes and then whatever reading on gives |
| `Commit.OutcomeInBytes` | internal/fileops/transform_file.go:56-113 | the report of a pass, in byte values: binary if and only if one of its first 8000 bytes is null; otherwise a change is reported if and only if the transform writes other bytes, and the counters are the transform's |
| `Commit.TransformLockedSourceBody` | internal/fileops/transform_file.go:200-233 | one inspection reports what the bytes its pass saw call for, and their digest |
| `Commit.TransformNoOptsResult` | internal/fileops/transform_file.go:70-86 | without options nothing would ever change |
| `Commit.Modifier.Release` | internal/fileops/safeio.go:362-368 | unlocks and closes exactly once |
| `Commit.Modifier.Abort` | internal/fileops/safeio.go:353-360 | done and let go afterwards, whatever happened before |
| `Commit.Modifier.VerifyCASAndChmod` | internal/fileops/safeio.go:173-219 | makes one pass over the file and accepts it only with the recorded digest; an outside change is reported only when the digest of that pass differs |
| `Commit.Modifier.CloseAndVerify` | internal/fileops/safeio.go:284-342 | the verifying pass begins after the staging file is closed, and both digests must be the recorded one |
| `Commit.Modifier.ReleaseAndRename` | internal/fileops/safeio.go:344-368 | the lock is let go once and then the staging file renamed; an error renames nothing |
| `Commit.Modifier.ReplayVerifyAndRename` | internal/fileops/safeio.go:284-351 | from the created staging file on: renamed after both checks, or given up; either way the staging file is closed once and the file let go once |
| `Commit.Modifier.WriteVerifyAndRename` | internal/fileops/safeio.go:121-155 | the same for buffered content, which an error discards before the lock is let go |
| `Commit.Modifier.ReplayTransform` | internal/fileops/transform_file.go:135-159 | makes one pass over the file; the staging file is the transform of the bytes of that pass, and the digest is theirs |
| `Commit.Modifier.CommitFromWriter` | internal/fileops/safeio.go:259-351 | over every interleaving with other programs and every fault: success means, in this order, staging file created, one pass replayed, staging file closed, one pass verified, lock let go, transform of the replayed pass renamed into place, both passes with the recorded digest; an error means no rename, and without a fault names a pass that explains it; on every exit staging file, lock and handle are let go of once, and a staging file stays only where its removal failed; never twice |
| `Commit.Modifier.CommitContent` | internal/fileops/safeio.go:119-249 | the same for content already in memory; only the verifying pass is left |
| `Commit.TransformFile` | internal/fileops/transform_file.go:161-192 | a file is skipped as binary if and only if the inspected pass has a null among its first 8000 bytes, and then nothing is renamed; when a change is applied, three passes were made under the lock, in order, they saw one byte sequence (or a collision is exhibited), and one rename put its transform in place, and the log since entry is exactly these ten events; otherwise one pass or an error, and nothing renamed; without a fault it fails only when two passes differ, or a later one is binary or has more blanks in a row than there is room for; on every exit the log is settled, and a staging file stays only after a fault |
| `Commit.TransformUnderLock` | internal/fileops/transform_file.go:179-192 | the same from the locked file on |
| `Commit.ApplyChange` | internal/fileops/transform_file.go:135-159 | a commit that replays and verifies the inspected bytes, with the log to show for it |
| `Commit.PreviewTransform` | internal/fileops/transform_file.go:235-255 | a preview makes one pass under the lock, reports what it calls for in the same terms, changes nothing, and lets the file go on every exit |
| `Commit.ReplaceContent` | internal/fileops/safeio.go:43-68 | one pass read under the lock, content replaced only if the verifying pass saw the bytes read, up to a collision; without a fault it fails only when the two differ; on every exit the log is settled |
| `Pipeline.EffectiveMaxFiles` | internal/pipeline/explicit_names.go:16-25 | a positive request is kept, any other means 50 |
| `Pipeline.PublishSpanWithFingerprintVerify` | internal/pipeline/span_output_publish.go:12-54 | what appears is the span as it is now, hashes as planned and has the planned length, or nothing appears; with force an existing file stops nothing; either way the staging file is closed once and left only where its removal failed |
| `Pipeline.PublishSpan` | internal/pipeline/run_extract.go:205-273 | the same in any mode: behind the old content when appending to a file that is there, exactly the span in every other case |
| `Pipeline.PlacedHolds` | internal/pipeline/run_split.go:259-309 | with distinct names every output stands under the directory, one separator and its name, with its own content, and all other files stay as they were |
| `Pipeline.WriteAll` | internal/pipeline/run_split.go:239-309 | stopped at output k: outputs before k complete, each under the directory, one separator and its name, k and later untouched, every state in between holds exactly the outputs published by then, and there is a reason for output k, which with force is never an existing file |
| `Pipeline.ChooseNames` | internal/pipeline/explicit_names.go:48-88 | the scanned names, or exactly what becomes of the fragments given; pairwise distinct; refused if and only if their number is wrong, one is invalid, or two count as equal |
| `Pipeline.SectionNamesDiffer` | internal/pipeline/run_split.go:122-141 | scanned section names are pairwise distinct, and number the sections from 001 on, with the extension |
| `Pipeline.DeliveredSectionsRebuildSource` | internal/pipeline/run_split.go:259-276 | unless a collision is exhibited, the outputs of a complete split concatenate to the scanned source, or with stripping to it without its delimiter lines |
| `Pipeline.PlanSplit` | internal/pipeline/run_split.go:58-141 | the scan, as `PlainSplit` tells it, and the names asked for; without fragments they number the sections; no plan without a fault means a failed scan or refused names |
| `Pipeline.RunSplit` | internal/pipeline/run_split.go:58-198 | output i is scanned section i even if the source changed before the write, up to a collision, under the name asked for or its number and the extension, in the output directory; complete on success, a complete prefix on failure, nothing on a failed scan, and no other file touched; without a fault a failure has refused names, a destination that exists without force, or a changed source behind it; on every exit the log is settled |
| `Pipeline.PlanBlocks` | internal/pipeline/run_blocks.go:52-135 | the same plan for blocks |
| `Pipeline.RunBlocks` | internal/pipeline/run_blocks.go:52-191 | the same for blocks |
| `ExtractPipeline.PlanAndHash` | internal/pipeline/run_extract.go:306-328 | the plan of the source and the digest of exactly the lines in range |
| `ExtractPipeline.PublishPlanned` | internal/pipeline/run_extract.go:188-285 | the planned span appears in one step, with the planned digest and length, or no file is touched |
| `ExtractPipeline.RunExtract` | internal/pipeline/run_extract.go:145-304 | extraction into a file, end to end, by the options themselves: with append and a destination that is there, it becomes its old content followed by exactly the lines in range, in every other case exactly those lines, up to a collision, although the source may change in between; any other end touches no file, and without a fault it is the refusal the plan calls for, a destination that exists with neither append nor force, or a changed source |

## Left out

* The cleaning of joined paths: the output directory is taken to be a clean path other than the root, and names to hold
  no separator.
* Command-line and MCP front ends, JSON errors, path validation and symlink resolution, permission bits, durability of
  `fsync`: no part of the laws above. A check of a path may refuse at will, which counts as a fault.
* The regular-expression engine and the choice of the literal fast path.
* Names from content or delimiter text, with their Unicode rules; the commands use sequential or explicit names. What an
  explicit name is turned into, and when two count as equal, are parameters.
* Context cancellation and its byte and line cadences: they only end a run early.
* `bufio.Writer`: the transform writes each piece to the sink at once, so the moment at which bytes reach the temp file
  differs, not which bytes do.
* Opening the source of a split, blocks or extract run, and the binary guard in front of it.
* The texts of lines that the split scan reads for naming even when names are sequential: one more seek and read on the
  shared stream, without a say in the result.
* Previews of split, blocks and extract: they write nothing.
* Races between the existence check and the rename in create mode, and between letting the lock go and the rename: the
  code promises nothing there.
* OS and spill-file backends other than the in-memory one.
* IDs and names of scratch files beyond their being fresh; error texts and the joining of several errors into one.
- SplitScan.ScanSplitSectionsMeta: the source is taken not to change during the scan itself; each fingerprint is that of the scanned bytes.
- BlocksScan.ScanBlocksMeta: likewise.
- Transform.TransformLines: copies the list of lines into an array it then edits; that the source also copies the bytes of each content, so that the caller's lines share no storage with the result, is not visible on values.
