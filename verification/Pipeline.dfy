/** Split and blocks end to end: scan, name, then publish each byte span and hold it against its fingerprint. */
module Pipeline {
  import opened Bytes
  import opened Streams
  import opened FileSessions
  import opened AtomicPublish
  import opened Naming
  import opened SpanCopy
  import Spans
  import Split
  import SplitLaws
  import SplitScan
  import Blocks
  import BlocksScan
  import LiteralSearch
  import opened PlainSplit

  const DEFAULT_MAX_FILES: nat := 50

  function EffectiveMaxFiles(requested: int): (limit: int)
    ensures limit > 0 && (requested > 0 ==> limit == requested) && (requested <= 0 ==> limit == 50)
  {
    if requested <= 0 then DEFAULT_MAX_FILES else requested
  }

  // ---------- planned outputs ----------

  function OutputPath(outDir: string, name: string): string {
    outDir + "/" + name
  }

  ghost predicate Distinct(names: seq<string>) {
    forall i, j :: 0 <= i < j < |names| ==> names[i] != names[j]
  }

  lemma PathsDiffer(outDir: string, a: string, b: string)
    requires OutputPath(outDir, a) == OutputPath(outDir, b)
    ensures a == b
  {
    assert OutputPath(outDir, a)[|outDir| + 1..] == a && OutputPath(outDir, b)[|outDir| + 1..] == b;
  }

  /** A byte span as the scan planned it, with the digest of what the scan read there. */
  datatype OutputSpan = OutputSpan(start: nat, end: nat, fingerprint: Digest)

  /** The files once the first outputs have been published in order. */
  function Placed(files: map<string, seq<byte>>, outDir: string, names: seq<string>,
                  contents: seq<seq<byte>>): map<string, seq<byte>>
    requires |contents| <= |names|
  {
    if contents == [] then files
    else
      var n := |contents| - 1;
      Placed(files, outDir, names, contents[..n])[OutputPath(outDir, names[n]) := contents[n]]
  }

  /** path is that of one of the first k names: the directory, one separator, the name. */
  predicate IsOutput(outDir: string, names: seq<string>, k: nat, path: string)
    requires k <= |names|
  {
    exists i :: 0 <= i < k && path == outDir + "/" + names[i]
  }

  /** Every output has its own content. */
  ghost predicate OutputsStand(now: map<string, seq<byte>>, outDir: string, names: seq<string>,
                               contents: seq<seq<byte>>)
    requires |contents| <= |names|
  {
    forall i :: 0 <= i < |contents| ==>
      outDir + "/" + names[i] in now && now[outDir + "/" + names[i]] == contents[i]
  }

  lemma {:induction false} OutputsKeepTheirContent(files: map<string, seq<byte>>, outDir: string, names: seq<string>,
                                                   contents: seq<seq<byte>>)
    requires |contents| <= |names| && Distinct(names)
    ensures OutputsStand(Placed(files, outDir, names, contents), outDir, names, contents)
    decreases |contents|
  {
    if contents != [] {
      var n := |contents| - 1;
      OutputsKeepTheirContent(files, outDir, names, contents[..n]);
      forall i | 0 <= i < n ensures OutputPath(outDir, names[i]) != OutputPath(outDir, names[n]) {
        if OutputPath(outDir, names[i]) == OutputPath(outDir, names[n]) {
          PathsDiffer(outDir, names[i], names[n]);
        }
      }
    }
  }

  lemma {:induction false} OthersStay(files: map<string, seq<byte>>, outDir: string, names: seq<string>,
                                      contents: seq<seq<byte>>, path: string)
    requires |contents| <= |names| && !IsOutput(outDir, names, |contents|, path)
    ensures var now := Placed(files, outDir, names, contents);
      (path in now <==> path in files) && (path in files ==> now[path] == files[path])
    decreases |contents|
  {
    if contents != [] {
      var n := |contents| - 1;
      assert path != OutputPath(outDir, names[n]);
      assert !IsOutput(outDir, names, n, path);
      OthersStay(files, outDir, names, contents[..n], path);
    }
  }

  /** Every output has its own content, and no other file has changed. */
  ghost predicate OnlyOutputs(files: map<string, seq<byte>>, now: map<string, seq<byte>>, outDir: string,
                              names: seq<string>, contents: seq<seq<byte>>)
    requires |contents| <= |names|
  {
    && OutputsStand(now, outDir, names, contents)
    && forall path :: !IsOutput(outDir, names, |contents|, path) ==>
         (path in now <==> path in files) && (path in files ==> now[path] == files[path])
  }

  /** With distinct names every output keeps its own content, and all other files stay as they were. */
  lemma PlacedHolds(files: map<string, seq<byte>>, outDir: string, names: seq<string>, contents: seq<seq<byte>>)
    requires |contents| <= |names| && Distinct(names)
    ensures OnlyOutputs(files, Placed(files, outDir, names, contents), outDir, names, contents)
  {
    OutputsKeepTheirContent(files, outDir, names, contents);
    forall path | !IsOutput(outDir, names, |contents|, path) {
      OthersStay(files, outDir, names, contents, path);
    }
  }

  lemma NotYetOutput(outDir: string, names: seq<string>, k: nat)
    requires k < |names| && Distinct(names)
    ensures !IsOutput(outDir, names, k, OutputPath(outDir, names[k]))
  {
    forall i | 0 <= i < k ensures OutputPath(outDir, names[i]) != OutputPath(outDir, names[k]) {
      if OutputPath(outDir, names[i]) == OutputPath(outDir, names[k]) {
        PathsDiffer(outDir, names[i], names[k]);
      }
    }
  }

  // ---------- publishing ----------

  /** The span reads as it was scanned, as far as the digest can tell. */
  ghost predicate Unchanged(data: seq<byte>, start: nat, end: nat, fingerprint: Digest, sha: HashFunction) {
    sha(Slice(data, start, end)) == fingerprint && (start < end ==> end <= |data|)
  }

  function PublishMode(force: bool): Mode {
    if force then Replace else Create
  }

  /** Publishes one span of the source, which may have changed since the scan. What appears is the span as it is now,
      behind what an append starts from, and hashes as planned. Nothing appears only after a fault, where a destination
      exists that must not, or when the source has changed. */
  method PublishSpan(session: FileSession, src: Source, seekOff: nat, byteLen: nat, want: Digest, path: string,
                     mode: Mode, sha: HashFunction)
    returns (r: PublishResult, ghost content: seq<byte>)
    modifies session, src
    ensures AllOrNothing(session, r, path, old(Existing(session.files, path, mode)) + content)
    ensures NoTempLeft(session, r) && Tidy(session) && old(session.log) <= session.log
    ensures r.Published? && mode.Append? && path in old(session.files) ==>
      session.files[path] == old(session.files[path]) + content
    ensures r.Published? && (!mode.Append? || path !in old(session.files)) ==> session.files[path] == content
    ensures r.Published? ==> content == Slice(src.data, seekOff, seekOff + byteLen)
    ensures r.Published? ==> sha(content) == want && |content| == byteLen
    ensures r.Published? && mode.Create? ==> path !in old(session.files)
    ensures r.NotPublished? && !session.faulted ==>
      (mode.Create? && path in old(session.files)) || !Unchanged(src.data, seekOff, seekOff + byteLen, want, sha)
    ensures old(session.faulted) ==> session.faulted
  {
    content := Slice(src.data, seekOff, seekOff + byteLen);
    LeadsNowhere(session.log, NOTHING_OPEN);
    var err, tmp := OpenStaging(session, path, mode);
    if tmp == null {
      return NotPublished(err.value, false, false), content;
    }
    if err == None {
      var copied := CopySpanToWriterWithSHA256Verify(tmp.staged, src, seekOff, byteLen, want, sha);
      err := if copied.Copied? then None else Some(WriteFailed);
      session.NoteFault(copied.CopyFailed? && (src.faulted || tmp.staged.faulted || tmp.staged.cut));
      if copied.Copied? {
        SpanLength(src.data, seekOff, byteLen);
      }
    }
    CreatedInTurn(old(session.log), tmp.path);
    r := CompletePublish(session, path, tmp, err);
    LeadsOn(old(session.log), old(session.log) + [Created(tmp.path)], session.log, NOTHING_OPEN, Staging(tmp.path),
            NOTHING_OPEN);
  }

  /** The same for an output of its own. */
  method PublishSpanWithFingerprintVerify(session: FileSession, src: Source, seekOff: nat, byteLen: nat, want: Digest,
                                          path: string, force: bool, sha: HashFunction)
    returns (r: PublishResult, ghost content: seq<byte>)
    modifies session, src
    ensures AllOrNothing(session, r, path, content) && old(session.log) <= session.log
    ensures NoTempLeft(session, r) && Tidy(session)
    ensures r.Published? ==> content == Slice(src.data, seekOff, seekOff + byteLen)
    ensures r.Published? ==> sha(content) == want && |content| == byteLen
    ensures r.Published? ==> force || path !in old(session.files)
    ensures r.NotPublished? && !session.faulted ==>
      (!force && path in old(session.files)) || !Unchanged(src.data, seekOff, seekOff + byteLen, want, sha)
    ensures old(session.faulted) ==> session.faulted
  {
    assert [] + Slice(src.data, seekOff, seekOff + byteLen) == Slice(src.data, seekOff, seekOff + byteLen);
    r, content := PublishSpan(session, src, seekOff, byteLen, want, path, PublishMode(force), sha);
  }

  lemma SpanLength(data: seq<byte>, from: nat, len: nat)
    requires len > 0 ==> from + len <= |data|
    ensures |Slice(data, from, from + len)| == len
    ensures [] + Slice(data, from, from + len) == Slice(data, from, from + len)
  {
  }

  /** The source was seen, from some event on, no longer to hold the span as it was scanned. */
  ghost predicate SeenChanged(log: seq<Event>, from: nat, span: OutputSpan, sha: HashFunction) {
    exists i :: from <= i < |log| && log[i].Observed?
      && !Unchanged(log[i].pass.Bytes(), span.start, span.end, span.fingerprint, sha)
  }

  /** Why an output may not get written: a fault or a refusal, a destination that exists without force, a span no seek
      can reach, or a source that has changed. */
  ghost predicate Excused(session: FileSession, from: nat, path: string, span: OutputSpan, force: bool,
                          sha: HashFunction)
    reads session
  {
    || session.faulted || (!force && path in session.files)
    || SerializedSpanSeekAndLength(span.start, span.end) == None
    || SeenChanged(session.log, from, span, sha)
  }

  /** Writes one output: its path, its checks, its span, its publication. */
  method WriteOne(session: FileSession, outDir: string, name: string, span: OutputSpan, force: bool, sha: HashFunction)
    returns (ok: bool, ghost content: seq<byte>)
    modifies session
    ensures session.files == if ok then old(session.files)[OutputPath(outDir, name) := content] else old(session.files)
    ensures session.history == if ok then old(session.history) + [session.files] else old(session.history)
    ensures ok ==> sha(content) == span.fingerprint && span.start <= span.end && |content| == span.end - span.start
    ensures ok ==> force || OutputPath(outDir, name) !in old(session.files)
    ensures !ok ==> Excused(session, |old(session.log)|, OutputPath(outDir, name), span, force, sha)
    ensures (old(session.faulted) ==> session.faulted) && old(session.log) <= session.log && Tidy(session)
  {
    content := [];
    LeadsNowhere(session.log, NOTHING_OPEN);
    var path := OutputPath(outDir, name);
    var allowed: bool := *;
    session.NoteFault(!allowed);
    if !allowed {
      return false, content;
    }
    var bounds := SerializedSpanSeekAndLength(span.start, span.end);
    if bounds == None {
      return false, content;
    }
    var src := session.SourceByNow();
    ghost var at, seen := |session.log| - 1, session.log;
    LeadsByOne(old(session.log), Observed(Pass(src.data, [])), NOTHING_OPEN);
    var r;
    r, content := PublishSpanWithFingerprintVerify(session, src, bounds.value.0, bounds.value.1, span.fingerprint, path,
                                                   force, sha);
    ok := r.Published?;
    TidyAgain(old(session.log), seen, session.log);
    assert session.log[at] == Observed(Pass(src.data, []));
  }

  /** State number k since before holds exactly the first k + 1 outputs. */
  ghost predicate StateHolds(history: seq<map<string, seq<byte>>>, before: nat, files: map<string, seq<byte>>,
                             outDir: string, names: seq<string>, contents: seq<seq<byte>>, k: nat)
    requires k < |contents| <= |names| && before + k < |history|
  {
    history[before + k] == Placed(files, outDir, names, contents[..k + 1])
  }

  /** Every state since before, one per output published, holds exactly the outputs published by then. */
  ghost predicate StepByStep(history: seq<map<string, seq<byte>>>, before: nat, files: map<string, seq<byte>>,
                             outDir: string, names: seq<string>, contents: seq<seq<byte>>) {
    && |contents| <= |names| && |history| == before + |contents|
    && forall k :: 0 <= k < |contents| ==> StateHolds(history, before, files, outDir, names, contents, k)
  }

  lemma OneStepMore(history: seq<map<string, seq<byte>>>, before: nat, files: map<string, seq<byte>>,
                    outDir: string, names: seq<string>, contents: seq<seq<byte>>, content: seq<byte>)
    requires StepByStep(history, before, files, outDir, names, contents) && |contents| < |names|
    ensures var now := Placed(files, outDir, names, contents)[OutputPath(outDir, names[|contents|]) := content];
      && now == Placed(files, outDir, names, contents + [content])
      && StepByStep(history + [now], before, files, outDir, names, contents + [content])
  {
    var more := contents + [content];
    assert more[..|contents|] == contents && more[..|more|] == more;
    var now := Placed(files, outDir, names, more);
    forall k | 0 <= k < |more| ensures StateHolds(history + [now], before, files, outDir, names, more, k) {
      if k < |contents| {
        assert StateHolds(history, before, files, outDir, names, contents, k);
        assert more[..k + 1] == contents[..k + 1];
      }
    }
  }

  /** Every content hashes like the span it was planned for. */
  ghost predicate Fingerprinted(spans: seq<OutputSpan>, contents: seq<seq<byte>>, sha: HashFunction) {
    && |contents| <= |spans|
    && forall i :: 0 <= i < |contents| ==> sha(contents[i]) == spans[i].fingerprint
  }

  /** The paths of these names were free. */
  ghost predicate NoneThere(files: map<string, seq<byte>>, outDir: string, names: seq<string>) {
    forall i :: 0 <= i < |names| ==> outDir + "/" + names[i] !in files
  }

  /** With distinct names, the next path is taken now only if it was before. */
  lemma NextPathIsFree(files: map<string, seq<byte>>, outDir: string, names: seq<string>, contents: seq<seq<byte>>)
    requires Distinct(names) && |contents| < |names| && NoneThere(files, outDir, names[..|contents|])
    requires OutputPath(outDir, names[|contents|]) !in Placed(files, outDir, names, contents)
    ensures NoneThere(files, outDir, names[..|contents| + 1])
  {
    NotYetOutput(outDir, names, |contents|);
    OthersStay(files, outDir, names, contents, OutputPath(outDir, names[|contents|]));
    assert names[..|contents| + 1] == names[..|contents|] + [names[|contents|]];
  }

  /** The first outputs are in place, one state of the files for each, and nothing else has changed. */
  ghost predicate InPlace(session: FileSession, files: map<string, seq<byte>>, before: nat, outDir: string,
                          names: seq<string>, contents: seq<seq<byte>>)
    reads session
  {
    && |contents| <= |names| && session.files == Placed(files, outDir, names, contents)
    && StepByStep(session.history, before, files, outDir, names, contents)
  }

  /** The next output: it joins those in place, or changes nothing. */
  method WriteNext(session: FileSession, outDir: string, names: seq<string>, spans: seq<OutputSpan>, force: bool,
                   sha: HashFunction, ghost files: map<string, seq<byte>>, ghost before: nat,
                   ghost contents: seq<seq<byte>>, i: nat)
    returns (ok: bool, ghost more: seq<seq<byte>>)
    requires i == |contents| < |names| == |spans| && InPlace(session, files, before, outDir, names, contents)
    requires Fingerprinted(spans, contents, sha)
    requires Distinct(names) && !force ==> NoneThere(files, outDir, names[..i])
    modifies session
    ensures |more| == i + if ok then 1 else 0
    ensures InPlace(session, files, before, outDir, names, more) && Fingerprinted(spans, more, sha)
    ensures Distinct(names) && !force ==> NoneThere(files, outDir, names[..|more|])
    ensures !ok ==> Excused(session, |old(session.log)|, OutputPath(outDir, names[i]), spans[i], force, sha)
    ensures (old(session.faulted) ==> session.faulted) && old(session.log) <= session.log && Tidy(session)
  {
    more := contents;
    ghost var content;
    ghost var history := session.history;
    ok, content := WriteOne(session, outDir, names[i], spans[i], force, sha);
    if ok {
      more := contents + [content];
      OneStepMore(history, before, files, outDir, names, contents, content);
      if Distinct(names) && !force {
        NextPathIsFree(files, outDir, names, contents);
      }
    }
  }

  /** Publishes the outputs in order and stops at the first that fails. Then the ones before it are complete, and
      neither it nor any later one has touched a file. */
  method WriteAll(session: FileSession, outDir: string, names: seq<string>, spans: seq<OutputSpan>, force: bool,
                  sha: HashFunction)
    returns (ok: bool, paths: seq<string>, ghost contents: seq<seq<byte>>)
    requires |names| == |spans|
    modifies session
    ensures Fingerprinted(spans, contents, sha) && (ok <==> |contents| == |spans|)
    ensures session.files == Placed(old(session.files), outDir, names, contents)
    ensures StepByStep(session.history, |old(session.history)|, old(session.files), outDir, names, contents)
    ensures Distinct(names) ==> OnlyOutputs(old(session.files), session.files, outDir, names, contents)
    ensures ok ==> |paths| == |names| && forall i :: 0 <= i < |names| ==> paths[i] == outDir + "/" + names[i]
    ensures Distinct(names) && !force ==> NoneThere(old(session.files), outDir, names[..|contents|])
    ensures !ok ==> var k := |contents|;
      Excused(session, |old(session.log)|, OutputPath(outDir, names[k]), spans[k], force, sha)
    ensures (old(session.faulted) ==> session.faulted) && Tidy(session)
  {
    paths, contents := [], [];
    ghost var files, before := session.files, |session.history|;
    LeadsNowhere(session.log, NOTHING_OPEN);
    for i := 0 to |spans|
      invariant |contents| == |paths| == i && Fingerprinted(spans, contents, sha)
      invariant InPlace(session, files, before, outDir, names, contents)
      invariant forall k :: 0 <= k < i ==> paths[k] == OutputPath(outDir, names[k])
      invariant old(session.log) <= session.log && (old(session.faulted) ==> session.faulted) && Tidy(session)
      invariant Distinct(names) && !force ==> NoneThere(files, outDir, names[..i])
      invariant Distinct(names) ==> OnlyOutputs(files, session.files, outDir, names, contents)
    {
      ghost var log := session.log;
      ok, contents := WriteNext(session, outDir, names, spans, force, sha, files, before, contents, i);
      TidyAgain(old(session.log), log, session.log);
      if Distinct(names) {
        PlacedHolds(files, outDir, names, contents);
      }
      if !ok {
        return;
      }
      paths := paths + [OutputPath(outDir, names[i])];
    }
    ok := true;
  }

  // ---------- names ----------

  /** How explicit names are read: what a fragment becomes, and when two basenames count as equal. */
  datatype NameRules = NameRules(finalize: string -> Option<string>, key: string -> string)

  /** Explicit names that cannot be used: the wrong number of them, an invalid one, or two that count as equal. */
  ghost predicate NamesRefused(outputs: nat, fragments: seq<string>, rules: NameRules) {
    && fragments != []
    && (|| |fragments| != outputs
        || (exists i :: 0 <= i < |fragments| && rules.finalize(fragments[i]) == None)
        || (exists i, j :: Clash(fragments, rules.finalize, rules.key, i, j)))
  }

  /** The names asked for: the scanned ones, or when fragments are given, exactly what becomes of these, no two of which
      count as equal. */
  ghost predicate AsAsked(scanned: seq<string>, fragments: seq<string>, rules: NameRules, names: seq<string>) {
    if fragments == [] then names == scanned
    else
      && |fragments| == |scanned| == |names| && AllDistinct(names, rules.key)
      && forall i :: 0 <= i < |fragments| ==> rules.finalize(fragments[i]) == Some(names[i])
  }

  lemma AskedIsNotRefused(scanned: seq<string>, fragments: seq<string>, rules: NameRules, names: seq<string>)
    requires AsAsked(scanned, fragments, rules, names)
    ensures !NamesRefused(|scanned|, fragments, rules)
  {
  }

  /** The scanned names, or when any are given, exactly as many explicit ones. */
  method ChooseNames(scanned: seq<string>, fragments: seq<string>, rules: NameRules)
    returns (names: Option<seq<string>>)
    requires Distinct(scanned)
    ensures names.Some? ==> AsAsked(scanned, fragments, rules, names.value) && Distinct(names.value)
    ensures names == None <==> NamesRefused(|scanned|, fragments, rules)
  {
    if |fragments| == 0 {
      return Some(scanned);
    }
    if |fragments| != |scanned| {
      return None;
    }
    var chosen := ApplyExplicitBasenames(fragments, rules.finalize, rules.key);
    names := if chosen.Names? then Some(chosen.names) else None;
    if chosen.Names? {
      AskedIsNotRefused(scanned, fragments, rules, chosen.names);
    }
  }

  // ---------- split ----------

  function SplitSpans(metas: seq<Split.SectionMeta>): seq<OutputSpan> {
    seq(|metas|, i requires 0 <= i < |metas| => OutputSpan(metas[i].byteStart, metas[i].byteEnd, metas[i].fingerprint))
  }

  function SplitNames(metas: seq<Split.SectionMeta>): seq<string> {
    seq(|metas|, i requires 0 <= i < |metas| => metas[i].name)
  }

  ghost function Sections(job: Split.SplitJob): seq<Split.SectionMeta> {
    Split.SectionsOf(job, Split.Groups(job, Spans.SpansOf(job.data)))
  }

  lemma SectionFact(job: Split.SplitJob, i: nat)
    requires i < |Sections(job)|
    ensures var m := Sections(job)[i];
      m.name == SequentialFilename(i + 1, job.ext) && m.fingerprint == job.sha(Slice(job.data, m.byteStart, m.byteEnd))
  {
    Split.SpansChain(job.data);
    SplitLaws.SectionsAreWindows(job, Spans.SpansOf(job.data));
    assert SplitLaws.SectionAt(job, Spans.SpansOf(job.data), Sections(job), i);
  }

  /** Each name is its place, counted from 1, in digits, and the extension. */
  ghost predicate NumberedInTurn(names: seq<string>, ext: string) {
    forall i :: 0 <= i < |names| ==> Numbered(names[i], i + 1, ext)
  }

  lemma SequentialNamesAreDistinct(names: seq<string>, ext: string)
    requires forall i :: 0 <= i < |names| ==> names[i] == SequentialFilename(i + 1, ext)
    ensures Distinct(names) && NumberedInTurn(names, ext)
  {
    forall i, j | 0 <= i < j < |names| ensures names[i] != names[j] {
      if names[i] == names[j] {
        SequentialNamesDiffer(i + 1, j + 1, ext);
      }
    }
    forall i | 0 <= i < |names| ensures Numbered(names[i], i + 1, ext) {
      SequentialNameReads(i + 1, ext);
    }
  }

  lemma SectionNamesDiffer(job: Split.SplitJob)
    ensures Distinct(SplitNames(Sections(job))) && NumberedInTurn(SplitNames(Sections(job)), job.ext)
  {
    var names := SplitNames(Sections(job));
    forall i | 0 <= i < |names| ensures names[i] == SequentialFilename(i + 1, job.ext) {
      SectionFact(job, i);
    }
    SequentialNamesAreDistinct(names, job.ext);
  }

  function Concat(contents: seq<seq<byte>>): seq<byte> {
    if contents == [] then [] else Concat(contents[..|contents| - 1]) + contents[|contents| - 1]
  }

  /** Content i is scanned section i, up to a collision. */
  ghost predicate SectionsDelivered(job: Split.SplitJob, contents: seq<seq<byte>>) {
    && |contents| <= |Sections(job)|
    && forall i :: 0 <= i < |contents| ==>
         SameBytes(job.sha, contents[i], Slice(job.data, Sections(job)[i].byteStart, Sections(job)[i].byteEnd))
  }

  lemma {:induction false} ConcatIsOutputText(data: seq<byte>, metas: seq<Split.SectionMeta>, contents: seq<seq<byte>>)
    requires |contents| == |metas|
    requires forall i :: 0 <= i < |metas| ==> contents[i] == Slice(data, metas[i].byteStart, metas[i].byteEnd)
    ensures Concat(contents) == SplitLaws.OutputText(data, metas)
    decreases |contents|
  {
    if contents != [] {
      ConcatIsOutputText(data, metas[..|metas| - 1], contents[..|contents| - 1]);
    }
  }

  /** Unless two byte sequences collide, the outputs of a complete split with delimiters kept concatenate to the scanned
      source, and those of a stripping split to the source without its delimiter lines. */
  lemma DeliveredSectionsRebuildSource(job: Split.SplitJob, contents: seq<seq<byte>>)
    requires SectionsDelivered(job, contents) && |contents| == |Sections(job)|
    ensures (exists i :: 0 <= i < |contents| &&
              Collision(job.sha, contents[i], Slice(job.data, Sections(job)[i].byteStart, Sections(job)[i].byteEnd)))
            || Concat(contents) ==
               if job.strip then SplitLaws.TextOf(job.data, SplitLaws.KeptLines(job, Spans.SpansOf(job.data)))
               else job.data
  {
    if forall i :: 0 <= i < |contents| ==>
         contents[i] == Slice(job.data, Sections(job)[i].byteStart, Sections(job)[i].byteEnd) {
      ConcatIsOutputText(job.data, Sections(job), contents);
      SplitLaws.OutputsPartitionSource(job);
    }
  }

  /** Each section hashes as its scan recorded. */
  ghost predicate SectionsHash(job: Split.SplitJob) {
    forall i :: 0 <= i < |Sections(job)| ==>
      var m := Sections(job)[i];
      m.fingerprint == job.sha(Slice(job.data, m.byteStart, m.byteEnd))
  }

  /** The scan and the names. */
  method PlanSplit(src: Source, job: Split.SplitJob, fragments: seq<string>, rules: NameRules)
    returns (ok: bool, names: seq<string>, spans: seq<OutputSpan>)
    requires src.data == job.data && |src.data| <= MAX_INT64
    modifies src
    ensures ok ==> SplitLaws.SplitOutcome(job).SplitDone? && spans == SplitSpans(Sections(job))
    ensures ok ==> SplitReads(job, SplitLaws.SplitOutcome(job))
    ensures ok ==> AsAsked(SplitNames(Sections(job)), fragments, rules, names) && Distinct(names)
    ensures ok ==> |names| == |Sections(job)| && Split.OutputSectionsOK(job.maxFiles, |Sections(job)|)
    ensures ok && fragments == [] ==> NumberedInTurn(names, job.ext)
    ensures !ok ==> || src.Unsteady() || SplitLaws.SplitOutcome(job).SplitFailed?
                    || NamesRefused(|Sections(job)|, fragments, rules)
    ensures SectionsHash(job)
  {
    names, spans := [], [];
    forall i | 0 <= i < |Sections(job)| {
      SectionFact(job, i);
    }
    var scanned, result := SplitScan.ScanSplitSectionsMeta(src, job);
    if !scanned || result.SplitFailed? {
      return false, [], [];
    }
    SectionNamesDiffer(job);
    SplitLaws.MachineYieldsOutcome(job);
    SplitLaws.SuccessIsWithinCap(job);
    var chosen := ChooseNames(SplitNames(result.sections), fragments, rules);
    if chosen == None {
      return false, [], [];
    }
    ok, names, spans := true, chosen.value, SplitSpans(result.sections);
  }

  /** The whole split in apply mode. Output i is scanned section i, up to a collision, although the source may change
      between the scan and each write; the paths are distinct; a failure leaves complete outputs before it and changes
      nothing from it on. */
  method RunSplit(session: FileSession, src: Source, job: Split.SplitJob, outDir: string, fragments: seq<string>,
                  rules: NameRules, force: bool, maxFiles: int)
    returns (ok: bool, paths: seq<string>, ghost names: seq<string>, ghost contents: seq<seq<byte>>)
    requires src.data == job.data && |src.data| <= MAX_INT64
    requires job.maxFiles == EffectiveMaxFiles(maxFiles)
    modifies session, src
    ensures SectionsDelivered(job, contents) && |contents| <= |names| && Distinct(names)
    ensures session.files == Placed(old(session.files), outDir, names, contents)
    ensures StepByStep(session.history, |old(session.history)|, old(session.files), outDir, names, contents)
    ensures OnlyOutputs(old(session.files), session.files, outDir, names, contents)
    ensures !force ==> NoneThere(old(session.files), outDir, names[..|contents|])
    ensures ok ==> |contents| == |names| == |Sections(job)| == |paths| <= job.maxFiles
    ensures ok ==> forall i :: 0 <= i < |paths| ==> paths[i] == outDir + "/" + names[i]
    ensures ok ==> SplitLaws.SplitOutcome(job).SplitDone?
    ensures ok || names != [] ==> AsAsked(SplitNames(Sections(job)), fragments, rules, names)
    ensures fragments == [] ==> NumberedInTurn(names, job.ext)
    ensures Tidy(session)
    ensures SplitLaws.SplitOutcome(job).SplitFailed? ==> !ok && contents == []
    ensures !ok && !src.Unsteady() && SplitLaws.SplitOutcome(job).SplitDone? ==>
      || session.faulted || NamesRefused(|Sections(job)|, fragments, rules)
      || (|contents| < |names| == |Sections(job)| && Excused(session, |old(session.log)|,
            OutputPath(outDir, names[|contents|]), SplitSpans(Sections(job))[|contents|], force, job.sha))
  {
    paths, names, contents := [], [], [];
    LeadsNowhere(session.log, NOTHING_OPEN);
    var planned, chosen, spans := PlanSplit(src, job, fragments, rules);
    var madeOutDir: bool := *;
    session.NoteFault(planned && !madeOutDir);
    if !planned || !madeOutDir {
      return false, [], [], [];
    }
    names := chosen;
    ok, paths, contents := WriteAll(session, outDir, chosen, spans, force, job.sha);
  }

  // ---------- blocks ----------

  function BlockSpans(metas: seq<BlocksScan.BlockMeta>): seq<OutputSpan> {
    seq(|metas|, i requires 0 <= i < |metas| => OutputSpan(metas[i].outStart, metas[i].outEnd, metas[i].fingerprint))
  }

  function BlockNames(metas: seq<BlocksScan.BlockMeta>): seq<string> {
    seq(|metas|, i requires 0 <= i < |metas| => metas[i].name)
  }

  /** The blocks scanned, if the scan ends well. */
  ghost function Metas(job: BlocksScan.BlocksJob): seq<BlocksScan.BlockMeta> {
    var outcome := BlocksScan.BlocksOutcome(job);
    if outcome.BlocksDone? then outcome.metas else []
  }

  /** Content i is scanned block i, up to a collision. */
  ghost predicate BlocksDelivered(job: BlocksScan.BlocksJob, contents: seq<seq<byte>>) {
    && |contents| <= |Metas(job)|
    && forall i :: 0 <= i < |contents| ==>
         SameBytes(job.sha, contents[i], Slice(job.data, Metas(job)[i].outStart, Metas(job)[i].outEnd))
  }

  /** Each block hashes as its scan recorded. */
  ghost predicate BlocksHash(job: BlocksScan.BlocksJob) {
    forall i :: 0 <= i < |Metas(job)| ==>
      Metas(job)[i].fingerprint == job.sha(Slice(job.data, Metas(job)[i].outStart, Metas(job)[i].outEnd))
  }

  lemma BlockFacts(job: BlocksScan.BlocksJob)
    requires BlocksScan.BlocksOutcome(job).BlocksDone?
    ensures var metas := Metas(job);
      && Distinct(BlockNames(metas)) && NumberedInTurn(BlockNames(metas), job.ext) && BlocksHash(job)
      && (job.maxFiles > 0 ==> |metas| <= job.maxFiles)
  {
    var spans := Spans.SpansOf(job.data);
    var contents := BlocksScan.SpanContents(job, spans);
    Blocks.BlocksFromWithin(contents, job.pats, 0);
    var blocks := Blocks.BlocksFrom(contents, job.pats, 0);
    var metas := BlocksScan.MetasOf(job, spans, blocks, 0, 0);
    BlocksScan.MetasDescribe(job, spans, blocks, 0, 0);
    BlocksScan.MetasOfLength(job, spans, blocks, 0, 0);
    forall i | 0 <= i < |metas|
      ensures metas[i].name == SequentialFilename(i + 1, job.ext)
      ensures metas[i].fingerprint == job.sha(Slice(job.data, metas[i].outStart, metas[i].outEnd))
    {
      assert BlocksScan.Describes(job, spans, metas[i], Blocks.NonEmpty(blocks)[i], 1 + i);
    }
    SequentialNamesAreDistinct(BlockNames(metas), job.ext);
  }

  /** The scan and the names. */
  method PlanBlocks(src: Source, job: BlocksScan.BlocksJob, fast: BlocksScan.Literals, fragments: seq<string>,
                    rules: NameRules)
    returns (ok: bool, names: seq<string>, spans: seq<OutputSpan>)
    requires src.data == job.data && |src.data| <= MAX_INT64
    requires LiteralSearch.StandsFor(fast.start, job.pats.start) && LiteralSearch.StandsFor(fast.end, job.pats.end)
    modifies src
    ensures ok ==> BlocksScan.BlocksOutcome(job).BlocksDone? && spans == BlockSpans(Metas(job))
    ensures ok ==> AsAsked(BlockNames(Metas(job)), fragments, rules, names) && Distinct(names)
    ensures ok ==> |names| == |Metas(job)| && (job.maxFiles > 0 ==> |names| <= job.maxFiles)
    ensures ok && fragments == [] ==> NumberedInTurn(names, job.ext)
    ensures !ok ==> || src.Unsteady() || BlocksScan.BlocksOutcome(job).BlocksFailed?
                    || NamesRefused(|Metas(job)|, fragments, rules)
    ensures ok ==> BlocksHash(job)
  {
    names, spans := [], [];
    var scanned, result := BlocksScan.ScanBlocksMeta(src, job, fast);
    if !scanned || result.BlocksFailed? {
      return false, [], [];
    }
    BlockFacts(job);
    var chosen := ChooseNames(BlockNames(result.metas), fragments, rules);
    if chosen == None {
      return false, [], [];
    }
    ok, names, spans := true, chosen.value, BlockSpans(result.metas);
  }

  /** The whole block extraction in apply mode, with the same guarantees. */
  method RunBlocks(session: FileSession, src: Source, job: BlocksScan.BlocksJob, fast: BlocksScan.Literals,
                   outDir: string, fragments: seq<string>, rules: NameRules, force: bool, maxFiles: int)
    returns (ok: bool, paths: seq<string>, ghost names: seq<string>, ghost contents: seq<seq<byte>>)
    requires src.data == job.data && |src.data| <= MAX_INT64
    requires LiteralSearch.StandsFor(fast.start, job.pats.start) && LiteralSearch.StandsFor(fast.end, job.pats.end)
    requires job.maxFiles == EffectiveMaxFiles(maxFiles)
    modifies session, src
    ensures BlocksDelivered(job, contents) && |contents| <= |names| && Distinct(names)
    ensures session.files == Placed(old(session.files), outDir, names, contents)
    ensures StepByStep(session.history, |old(session.history)|, old(session.files), outDir, names, contents)
    ensures OnlyOutputs(old(session.files), session.files, outDir, names, contents)
    ensures !force ==> NoneThere(old(session.files), outDir, names[..|contents|])
    ensures ok ==> BlocksScan.BlocksOutcome(job).BlocksDone?
    ensures ok ==> |contents| == |names| == |Metas(job)| == |paths| <= job.maxFiles
    ensures ok ==> forall i :: 0 <= i < |paths| ==> paths[i] == outDir + "/" + names[i]
    ensures ok || names != [] ==> AsAsked(BlockNames(Metas(job)), fragments, rules, names)
    ensures fragments == [] ==> NumberedInTurn(names, job.ext)
    ensures Tidy(session)
    ensures BlocksScan.BlocksOutcome(job).BlocksFailed? ==> !ok && contents == []
    ensures !ok && !src.Unsteady() && BlocksScan.BlocksOutcome(job).BlocksDone? ==>
      || session.faulted || NamesRefused(|Metas(job)|, fragments, rules)
      || (|contents| < |names| == |Metas(job)| && Excused(session, |old(session.log)|,
            OutputPath(outDir, names[|contents|]), BlockSpans(Metas(job))[|contents|], force, job.sha))
  {
    paths, names, contents := [], [], [];
    LeadsNowhere(session.log, NOTHING_OPEN);
    var planned, chosen, spans := PlanBlocks(src, job, fast, fragments, rules);
    var madeOutDir: bool := *;
    session.NoteFault(planned && !madeOutDir);
    if !planned || !madeOutDir {
      return false, [], [], [];
    }
    names := chosen;
    ok, paths, contents := WriteAll(session, outDir, chosen, spans, force, job.sha);
  }
}
