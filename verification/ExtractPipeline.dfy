/** Extraction into a file, end to end: plan, fingerprint, then publish the span and hold it against the fingerprint. */
module ExtractPipeline {
  import opened Bytes
  import opened Streams
  import opened Lines
  import opened Spans
  import opened FileSessions
  import opened AtomicPublish
  import opened SpanCopy
  import opened Extract
  import opened Pipeline

  /** What the destination options ask for: appending wins over replacing. */
  function ModeFor(force: bool, append: bool): Mode {
    if append then Append else PublishMode(force)
  }

  datatype ExtractRun = Done(lines: nat) | NotDone(error: RangeError) | Stopped

  /** The bytes of the lines in range, as a seekable source is divided. */
  ghost function Wanted(lr: LineRange, data: seq<byte>): seq<byte> {
    Serialize(Selected(lr, SpanLines(data)))
  }

  /** The plan, and the digest of the bytes it spans. */
  method PlanAndHash(src: Source, lr: LineRange, sha: HashFunction)
    returns (ok: bool, planned: PlanResult, want: Digest)
    requires |src.data| <= MAX_INT64
    modifies src
    ensures ok ==> planned == PlanOutcome(lr, src.data)
    ensures ok && planned.Planned? ==> want == sha(Wanted(lr, src.data))
    ensures !ok ==> src.Unsteady()
  {
    want := [];
    ok, planned := PlanExtractSerializedSpan(src, lr);
    if !ok || planned.PlanRefused? {
      return;
    }
    PlanWithin(lr, src.data);
    PlanIsExact(lr, src.data);
    ok, want := SHA256SerializedByteSpan(src, planned.plan.start, planned.plan.end, sha);
  }

  /** The destination has taken exactly content behind what it starts from, in one step. */
  twostate predicate Appeared(session: FileSession, dest: string, mode: Mode, content: seq<byte>)
    reads session
  {
    && session.history == old(session.history) + [session.files]
    && (mode.Create? ==> dest !in old(session.files))
    && session.files == old(session.files)
         [dest := if mode.Append? && dest in old(session.files) then old(session.files[dest]) + content else content]
  }

  twostate predicate Untouched(session: FileSession)
    reads session
  {
    && session.files == old(session.files) && session.history == old(session.history)
    && NoRename(old(session.log), session.log)
  }

  /** Publishes a planned span from the source as it is by then. */
  method PublishPlanned(session: FileSession, plan: PlanState, want: Digest, dest: string, mode: Mode,
                          sha: HashFunction)
    returns (ok: bool, ghost content: seq<byte>)
    requires plan.start <= plan.end <= MAX_INT64
    modifies session
    ensures Tidy(session) && (old(session.faulted) ==> session.faulted)
    ensures if ok then Appeared(session, dest, mode, content) else Untouched(session)
    ensures ok ==> sha(content) == want && |content| == plan.end - plan.start
    ensures !ok && !session.faulted ==>
      || (mode.Create? && dest in old(session.files))
      || SeenChanged(session.log, |old(session.log)|, OutputSpan(plan.start, plan.end, want), sha)
  {
    content := [];
    LeadsNowhere(session.log, NOTHING_OPEN);
    var madeDir: bool := *;
    session.NoteFault(!madeDir);
    if !madeDir {
      return false, content;
    }
    var bounds := SerializedSpanSeekAndLength(plan.start, plan.end);
    var src := session.SourceByNow();
    ghost var at, seen := |session.log| - 1, session.log;
    LeadsByOne(old(session.log), Observed(Pass(src.data, [])), NOTHING_OPEN);
    NoRenameByOne(old(session.log), Observed(Pass(src.data, [])));
    var r;
    r, content := PublishSpan(session, src, bounds.value.0, bounds.value.1, want, dest, mode, sha);
    TidyAgain(old(session.log), seen, session.log);
    ok := r.Published?;
    if !ok {
      NoRenameChain(old(session.log), seen, session.log);
    }
    assert session.log[at] == Observed(Pass(src.data, []));
  }

  /** The whole extraction in apply mode. The destination takes the lines in range as they were planned, up to a
      collision, although the source may change before they are copied: behind its old content when appending, otherwise
      in its place. Any other end leaves every file as it was. A refusal is the one the plan calls for; without a fault
      nothing else stops a plan but a destination that exists and must not, or a source that has changed. */
  method RunExtract(session: FileSession, src: Source, lr: LineRange, dest: string, force: bool, append: bool,
                    sha: HashFunction)
    returns (r: ExtractRun, ghost content: seq<byte>)
    requires |src.data| <= MAX_INT64
    modifies session, src
    ensures Tidy(session)
    ensures r.Done? && append && dest in old(session.files) ==>
      session.files == old(session.files)[dest := old(session.files[dest]) + content]
    ensures r.Done? && (!append || dest !in old(session.files)) ==>
      session.files == old(session.files)[dest := content]
    ensures r.Done? ==> session.history == old(session.history) + [session.files]
    ensures r.Done? ==> append || force || dest !in old(session.files)
    ensures !r.Done? ==> Untouched(session)
    ensures r.Done? ==> SameBytes(sha, content, Wanted(lr, src.data)) && |content| == |Wanted(lr, src.data)|
    ensures r.Done? ==> PlanOutcome(lr, src.data).Planned? && r.lines == |Selected(lr, SpanLines(src.data))| > 0
    ensures r.NotDone? ==> PlanOutcome(lr, src.data) == PlanRefused(r.error)
    ensures r.Stopped? && !session.faulted && !src.Unsteady() ==>
      var planned := PlanOutcome(lr, src.data);
      && planned.Planned?
      && (|| (!append && !force && dest in old(session.files))
          || SeenChanged(session.log, |old(session.log)|,
               OutputSpan(planned.plan.start, planned.plan.end, sha(Wanted(lr, src.data))), sha))
  {
    content := [];
    LeadsNowhere(session.log, NOTHING_OPEN);
    var ok, planned, want := PlanAndHash(src, lr, sha);
    if !ok {
      return Stopped, content;
    }
    if planned.PlanRefused? {
      return NotDone(planned.error), content;
    }
    PlanWithin(lr, src.data);
    PlanIsExact(lr, src.data);
    var rewound := src.SeekTo(0);
    if !rewound {
      return Stopped, content;
    }
    ok, content := PublishPlanned(session, planned.plan, want, dest, ModeFor(force, append), sha);
    r := if ok then Done(planned.plan.linesSelected) else Stopped;
  }
}
