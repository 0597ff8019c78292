/** Rewriting a file in place: inspected, replayed and verified under a lock, then renamed. Other programs may write the
    file at any time, so each pass over it may observe different bytes. */
module Commit {
  import opened Bytes
  import opened Streams
  import opened Lines
  import opened Transform
  import opened PendingWhitespace
  import opened TransformStream
  import opened Inspection
  import opened FileSessions
  import SpanCopy

  const CAS_VERIFY_BUFFER: nat := 256 * 1024

  // ---------- one pass over the file ----------

  /** A file is open and locked, and one staging file may be open beside it. */
  const HELD := Book(true, true, {})

  ghost function HeldWith(staging: string): Book {
    Book(true, true, {staging})
  }

  lemma OpenedInTurn(log: seq<Event>)
    ensures Leads(log, log + [Opened, Locked], NOTHING_OPEN, HELD)
    ensures Settled(log, log) && Settled(log, log + [Opened, Closed])
    ensures Leads(log, log + [Unlocked, Closed], HELD, NOTHING_OPEN)
  {
    LeadsNowhere(log, NOTHING_OPEN);
    LeadsByTwo(log, Opened, Locked, NOTHING_OPEN, Book(true, false, {}));
    LeadsByTwo(log, Opened, Closed, NOTHING_OPEN, Book(true, false, {}));
    LeadsByTwo(log, Unlocked, Closed, HELD, Book(true, false, {}));
  }

  lemma OpenedAndLetGo(log: seq<Event>)
    ensures Settled(log, log + [Opened, Locked, Unlocked, Closed])
  {
    OpenedInTurn(log);
    OpenedInTurn(log + [Opened, Locked]);
    assert log + [Opened, Locked] + [Unlocked, Closed] == log + [Opened, Locked, Unlocked, Closed];
    LeadsOn(log, log + [Opened, Locked], log + [Opened, Locked] + [Unlocked, Closed], NOTHING_OPEN, HELD, NOTHING_OPEN);
  }

  /** Opens and locks a file. A handle that cannot be kept is let go at once. */
  method OpenLocked(session: FileSession) returns (kept: LockedFile?)
    modifies session`faulted, session`log
    ensures kept != null ==> fresh(kept) && kept.session == session && kept.Held()
    ensures kept != null ==> session.log == old(session.log) + [Opened, Locked]
    ensures kept == null ==> session.faulted && NoRename(old(session.log), session.log)
    ensures kept == null ==> Settled(old(session.log), session.log)
    ensures old(session.faulted) ==> session.faulted
  {
    OpenedInTurn(session.log);
    OpenedAndLetGo(session.log);
    var found: bool := *;
    session.NoteFault(!found);
    if !found {
      return null;
    }
    var file := new LockedFile(session);
    var locked := file.Lock();
    if !locked {
      file.Close();
      return null;
    }
    var hasStat: bool := *;
    session.NoteFault(!hasStat);
    if !hasStat {
      file.Unlock();
      file.Close();
      assert session.log == old(session.log) + [Opened, Locked, Unlocked, Closed];
      return null;
    }
    return file;
  }

  /** One of the first 8000 bytes is null. */
  ghost predicate NullEarly(data: seq<byte>) {
    exists i :: 0 <= i < |data| && i < 8000 && data[i] == 0
  }

  lemma WindowTells(pass: Pass)
    ensures 0 in pass.Window() <==> NullEarly(pass.first)
  {
    if NullEarly(pass.first) {
      var i :| 0 <= i < |pass.first| && i < 8000 && pass.first[i] == 0;
      assert pass.Window()[i] == 0;
    }
  }

  method ScanForNull(buf: seq<byte>) returns (found: bool)
    ensures found <==> 0 in buf
  {
    for i := 0 to |buf|
      invariant 0 !in buf[..i]
    {
      if buf[i] == 0 {
        return true;
      }
    }
    found := false;
  }

  /** Reads the opening window and classifies the source by it alone; the body is the window and then whatever reading
      on gives. */
  method TransformSourceBodyReader(first: Source, later: Source) returns (ok: bool, binary: bool, body: Source?)
    requires first.off == 0 && later.off == 0
    modifies first
    ensures ok ==> (binary <==> NullEarly(first.data))
    ensures ok && !binary ==> body != null && fresh(body) && body.off == 0 && !body.faulted
    ensures ok && !binary ==> body.data == Pass(first.data, later.data).Bytes()
    ensures !ok ==> first.faulted
  {
    var window, status := SpanCopy.ReadFull(first, BINARY_CHECK_SIZE);
    if status == Failed {
      return false, false, null;
    }
    ghost var pass := Pass(first.data, later.data);
    assert window == pass.Window();
    WindowTells(pass);
    binary := ScanForNull(window);
    if binary {
      return true, true, null;
    }
    var behind := if first.off < |first.data| then first.data[first.off..] else later.data;
    assert window + behind == pass.Bytes();
    body := new Source(window + behind, later.idle);
    ok := true;
  }

  datatype SkipReason = Binary | NoTransform

  datatype FileResult = FileResult(skipped: Option<SkipReason>, stats: Stats, wouldChange: bool)

  const NO_STATS := Stats(0, 0, 0, 0, 0, 0, 0, 0, false)
  const NOTHING_YET := FileResult(None, NO_STATS, false)

  /** What the inspection must report of what its pass has read. */
  ghost function FileOutcome(pass: Pass, opts: TransformOptions): FileResult {
    if NullEarly(pass.first) then FileResult(Some(Binary), NO_STATS, false)
    else if !opts.Active() then FileResult(Some(NoTransform), NO_STATS, false)
    else
      FileResult(None, StatsOf(ReadLines(pass.Bytes()), opts), TransformBytes(pass.Bytes(), opts) != pass.Bytes())
  }

  /** The report, told by the bytes: a null among the first 8000 makes a file binary, and otherwise a change is reported
      exactly when the transform writes other bytes. */
  ghost predicate OutcomeReads(result: FileResult, pass: Pass, opts: TransformOptions) {
    && (result.skipped == Some(Binary) <==> exists i :: 0 <= i < |pass.first| && i < 8000 && pass.first[i] == 0)
    && (result.skipped == Some(NoTransform) <==>
          result.skipped != Some(Binary) && opts.lineEndings == None && !opts.trimTrailing && !opts.finalNewline)
    && (result.wouldChange <==> result.skipped != Some(Binary) && TransformBytes(pass.Bytes(), opts) != pass.Bytes())
    && (result.skipped == None ==> result.stats == StatsOf(ReadLines(pass.Bytes()), opts))
  }

  lemma OutcomeInBytes(pass: Pass, opts: TransformOptions)
    ensures OutcomeReads(FileOutcome(pass, opts), pass, opts)
  {
    if !opts.Active() {
      assert Transformed(ReadLines(pass.Bytes()), opts) == ReadLines(pass.Bytes());
      ReadLinesKeepsBytes(pass.Bytes());
    }
  }

  /** Without options the body is copied, and both sides of the copy are hashed and compared. */
  method TransformNoOptsResult(body: Source, sha: HashFunction) returns (ok: bool, would: bool)
    requires body.off == 0
    modifies body
    ensures ok ==> !would
    ensures !ok ==> body.faulted
  {
    var read, written: seq<byte> := [], [];
    var status := More;
    while status == More
      invariant body.off <= |body.data| && read == written
      invariant status == Failed ==> body.faulted
      decreases |body.data| - body.off, body.idle, status == More
    {
      var chunk;
      chunk, status := body.Read(32 * 1024);
      read := read + chunk;
      written := written + chunk;
    }
    ok := status == AtEnd;
    would := |read| != |written| || sha(read) != sha(written);
  }

  /** One inspection. A source that would change comes with the digest of all the bytes the pass has read. */
  method TransformLockedSourceBody(session: FileSession, first: Source, later: Source, opts: TransformOptions,
                                   sha: HashFunction)
    returns (ok: bool, result: FileResult, digest: Digest)
    requires first.off == 0 && later.off == 0
    modifies first, session`faulted
    ensures ok ==> result == FileOutcome(Pass(first.data, later.data), opts)
    ensures ok && result.skipped == None ==> digest == sha(Pass(first.data, later.data).Bytes())
    ensures (!ok || old(session.faulted)) ==> session.faulted
  {
    result, digest := NOTHING_YET, [];
    var binary, body;
    ok, binary, body := TransformSourceBodyReader(first, later);
    session.NoteFault(!ok && first.faulted);
    if !ok {
      return;
    }
    if binary {
      result := result.(skipped := Some(Binary));
      return;
    }
    var would;
    if !opts.Active() {
      ok, would := TransformNoOptsResult(body, sha);
      result := FileResult(Some(NoTransform), NO_STATS, would);
    } else {
      var stats;
      ok, stats, would := InspectWouldChange(body, opts);
      if ok {
        result := FileResult(None, stats, would);
        digest := sha(body.data[..body.off]);
        assert body.data[..body.off] == body.data;
      }
    }
    session.NoteFault(!ok && body.Unsteady());
  }

  // ---------- the modifier ----------

  datatype CommitError =
    | AlreadyDone | CreateTempFailed | WriteFailed | BinaryOnReplay | SyncFailed | CloseFailed
    | ModifiedExternally | VerifyFailed | ChmodFailed | RenameFailed

  class Modifier {
    const path: string
    const session: FileSession
    const sha: HashFunction
    ghost const handle: LockedFile
    var file: LockedFile?
    var hash: Digest
    var done: bool

    constructor (path: string, session: FileSession, sha: HashFunction, file: LockedFile)
      requires file.Held() && file.session == session
      ensures this.path == path && this.session == session && this.sha == sha && this.handle == file
      ensures Valid() && !done
    {
      this.path, this.session, this.sha, this.handle, this.file := path, session, sha, file, file;
      this.hash, this.done := [], false;
    }

    /** The lock is held until the modifier is done, and has been let go exactly once by then. */
    ghost predicate Valid()
      reads this, handle
    {
      && handle.session == session
      && if done then file == null && handle.LetGo() else file == handle && handle.Held()
    }

    method Release()
      requires file != null ==> file == handle && handle.Held() && handle.session == session
      modifies this`file, handle, session`log
      ensures file == null
      ensures old(file) != null ==> handle.LetGo() && session.log == old(session.log) + [Unlocked, Closed]
      ensures old(file) == null ==> handle.unlocks == old(handle.unlocks) && handle.closes == old(handle.closes)
      ensures old(file) == null ==> handle.locks == old(handle.locks) && session.log == old(session.log)
    {
      if file != null {
        file.Unlock();
        file.Close();
        file := null;
      }
    }

    /** Lets the file go unless a commit already has. */
    method Abort()
      requires Valid()
      modifies this`file, this`done, handle, session`log
      ensures Valid() && done
      ensures session.log == if old(done) then old(session.log) else old(session.log) + [Unlocked, Closed]
    {
      if done {
        return;
      }
      done := true;
      Release();
    }

    method HashCurrentFileForCAS(src: Source) returns (ok: bool, digest: Digest)
      requires src.off == 0
      modifies src
      ensures ok ==> digest == sha(src.data)
      ensures !ok ==> src.faulted
    {
      var hashed: seq<byte> := [];
      var status := More;
      while status == More
        invariant src.off <= |src.data| && hashed == src.data[..src.off]
        invariant status == AtEnd ==> src.off == |src.data|
        invariant status == Failed ==> src.faulted
        decreases |src.data| - src.off, src.idle, status == More
      {
        ghost var at := src.off;
        var chunk;
        chunk, status := src.Read(CAS_VERIFY_BUFFER);
        assert src.data[..at] + chunk == src.data[..src.off];
        hashed := hashed + chunk;
      }
      assert src.off == |src.data| ==> src.data[..src.off] == src.data;
      ok, digest := status == AtEnd, sha(hashed);
    }

    /** One more pass, hashed and held against the recorded digest. The pass is in the log. */
    method VerifyCASAndChmod(tmp: TempFile) returns (err: Option<CommitError>, ghost verified: Pass)
      requires file != null && file.Held() && file.session == session
      modifies session`faulted, session`log
      ensures session.log == old(session.log) + [Observed(verified)] || (err.Some? && session.log == old(session.log))
      ensures err == Some(ModifiedExternally) ==> session.log == old(session.log) + [Observed(verified)]
      ensures err == None ==> sha(verified.Bytes()) == hash
      ensures err == Some(ModifiedExternally) ==> sha(verified.Bytes()) != hash
      ensures err.Some? && err != Some(ModifiedExternally) ==> session.faulted && err != Some(BinaryOnReplay)
      ensures old(session.faulted) ==> session.faulted
    {
      verified := Pass([], []);
      var src := file.Rewind();
      if src == null {
        return Some(VerifyFailed), verified;
      }
      verified := Pass(src.data, []);
      var ok, digest := HashCurrentFileForCAS(src);
      session.NoteFault(!ok && src.faulted);
      if !ok {
        return Some(VerifyFailed), verified;
      }
      if digest != hash {
        return Some(ModifiedExternally), verified;
      }
      var changed := session.Chmod(tmp);
      err := if changed then None else Some(ChmodFailed);
    }

    method SyncClose(tmp: TempFile) returns (closed: bool, err: Option<CommitError>)
      requires tmp.session == session
      modifies tmp, session`faulted, session`log
      ensures tmp.closes == old(tmp.closes) + if closed then 1 else 0
      ensures session.log == if closed then old(session.log) + [StagingClosed(tmp.path)] else old(session.log)
      ensures if err == None then closed else session.faulted && (err.value.SyncFailed? || err.value.CloseFailed?)
      ensures old(session.faulted) ==> session.faulted
    {
      var synced := tmp.Sync();
      if !synced {
        return false, Some(SyncFailed);
      }
      var ok := tmp.Close();
      return true, if ok then None else Some(CloseFailed);
    }

    /** Closes the staging file unless that was done, and removes it. */
    method Discard(tmp: TempFile, closed: bool) returns (ghost removed: bool)
      requires tmp.session == session
      modifies tmp, session`temps, session`faulted, session`log
      ensures tmp.closes == old(tmp.closes) + if closed then 0 else 1
      ensures session.temps == if removed then old(session.temps) - {tmp.path} else old(session.temps)
      ensures session.log == if closed then old(session.log) else old(session.log) + [StagingClosed(tmp.path)]
      ensures (!removed || old(session.faulted)) ==> session.faulted
    {
      if !closed {
        var closeOK := tmp.Close();
      }
      var ok := session.Remove(tmp);
      removed := ok;
    }

    lemma StagingInTurn(log: seq<Event>, staging: string)
      ensures Leads(log, log, HeldWith(staging), HeldWith(staging))
      ensures Leads(log, log + [StagingClosed(staging)], HeldWith(staging), HELD)
      ensures Leads(log, log + [Created(staging)], HELD, HeldWith(staging))
    {
      LeadsNowhere(log, HeldWith(staging));
      LeadsByOne(log, StagingClosed(staging), HeldWith(staging));
      LeadsByOne(log, Created(staging), HELD);
      assert {staging} - {staging} == {} && {} + {staging} == {staging};
    }

    lemma VerifiedInTurn(log: seq<Event>, staging: string, verified: Pass)
      ensures Leads(log, log + [StagingClosed(staging)] + [Observed(verified)], HeldWith(staging), HELD)
    {
      StagingInTurn(log, staging);
      LeadsByOne(log + [StagingClosed(staging)], Observed(verified), HELD);
      LeadsOn(log, log + [StagingClosed(staging)], log + [StagingClosed(staging)] + [Observed(verified)],
              HeldWith(staging), HELD, HELD);
    }

    /** The staging file is closed, one more pass verified, and only then may the rename come. */
    method CloseAndVerify(tmp: TempFile, wrote: Option<CommitError>, sourceSHA: Digest)
      returns (err: Option<CommitError>, closed: bool, ghost verified: Pass)
      requires file == handle && handle.Held() && handle.session == session && tmp.session == session && tmp.closes == 0
      modifies session`files, session`history, session`faulted, session`log, tmp
      ensures tmp.closes == if closed then 1 else 0
      ensures wrote.Some? ==> err == wrote
      ensures err == None ==> closed && sha(verified.Bytes()) == hash == sourceSHA
      ensures err == None ==> session.log == old(session.log) + [StagingClosed(tmp.path), Observed(verified)]
      ensures NoRename(old(session.log), session.log)
      ensures Leads(old(session.log), session.log, HeldWith(tmp.path), if closed then HELD else HeldWith(tmp.path))
      ensures wrote == None && err == Some(ModifiedExternally) && sourceSHA == hash ==>
        sha(verified.Bytes()) != hash && session.log == old(session.log) + [StagingClosed(tmp.path), Observed(verified)]
      ensures wrote == None && err.Some? && err != Some(ModifiedExternally) ==>
        session.faulted && err != Some(BinaryOnReplay)
      ensures old(session.faulted) ==> session.faulted
    {
      verified, closed, err := Pass([], []), false, wrote;
      StagingInTurn(session.log, tmp.path);
      if err == None {
        closed, err := SyncClose(tmp);
      }
      session.Interference();
      if err == None && sourceSHA != hash {
        err := Some(ModifiedExternally);
      }
      if err == None {
        err, verified := VerifyCASAndChmod(tmp);
        VerifiedInTurn(old(session.log), tmp.path, verified);
      }
      session.Interference();
    }

    /** What a finished commit has done to the file: exactly this content is in its place, or nothing was renamed. */
    twostate predicate Concluded(ok: bool, content: seq<byte>)
      reads session
    {
      if ok then path in session.files && session.files[path] == content
      else NoRename(old(session.log), session.log)
    }

    lemma LetGoAndRenamed(log: seq<Event>, target: string, content: seq<byte>)
      ensures Leads(log, log + [Unlocked, Closed], HELD, NOTHING_OPEN)
      ensures Leads(log, log + Replaced(target, content), HELD, NOTHING_OPEN)
    {
      LeadsByTwo(log, Unlocked, Closed, HELD, Book(true, false, {}));
      var letGo := log + [Unlocked, Closed];
      LeadsByOne(letGo, Renamed(target, content), NOTHING_OPEN);
      LeadsOn(log, letGo, letGo + [Renamed(target, content)], HELD, NOTHING_OPEN, NOTHING_OPEN);
      assert letGo + [Renamed(target, content)] == log + Replaced(target, content);
    }

    /** Lets the file go, and then puts the staging file in its place. */
    method ReleaseAndRename(tmp: TempFile) returns (err: Option<CommitError>, ghost removed: bool)
      requires file == handle && handle.Held() && handle.session == session && done
      requires tmp.session == session && tmp.closes == 1 && tmp.path in session.temps
      modifies this`file, handle, session, tmp
      ensures Valid() && tmp.closes == 1
      ensures Concluded(err == None, tmp.staged.data)
      ensures err == None ==> session.log == old(session.log) + Replaced(path, tmp.staged.data)
      ensures err.Some? ==> err == Some(RenameFailed) && session.faulted
      ensures err.Some? ==> session.log == old(session.log) + [Unlocked, Closed]
      ensures Leads(old(session.log), session.log, HELD, NOTHING_OPEN)
      ensures old(session.faulted) ==> session.faulted
      ensures session.temps == if err == None || removed then old(session.temps) - {tmp.path} else old(session.temps)
    {
      removed := false;
      LetGoAndRenamed(session.log, path, tmp.staged.data);
      Release();
      session.Interference();
      var renamed := session.Rename(tmp, path);
      err := None;
      if !renamed {
        removed := Discard(tmp, true);
        err := Some(RenameFailed);
      }
    }

    /** The replay: one more pass, transformed into the staging file, with the digest of what the pass read. */
    method ReplayTransform(tmp: TempFile, opts: TransformOptions, spill: MemSpillBacking?)
      returns (err: Option<CommitError>, sourceSHA: Digest, ghost replayed: Pass)
      requires file != null && file.Held() && file.session == session && tmp.session == session && tmp.staged.data == []
      modifies tmp.staged, spill, session`faulted, session`log
      ensures session.log == old(session.log) + [Observed(replayed)] || (err.Some? && session.log == old(session.log))
      ensures err == Some(BinaryOnReplay) ==> session.log == old(session.log) + [Observed(replayed)]
      ensures err == None ==> tmp.staged.data == TransformBytes(replayed.Bytes(), opts) && !NullEarly(replayed.first)
      ensures err == None ==> sourceSHA == sha(replayed.Bytes())
      ensures err == Some(BinaryOnReplay) ==> NullEarly(replayed.first)
      ensures err.Some? && err != Some(BinaryOnReplay) ==>
        err == Some(WriteFailed) && (session.faulted || OutOfRoom(replayed.Bytes(), opts, spill, LimitOf(0)))
      ensures err == Some(WriteFailed) && !session.faulted ==> session.log == old(session.log) + [Observed(replayed)]
      ensures old(session.faulted) ==> session.faulted
    {
      sourceSHA, replayed := [], Pass([], []);
      var first, later := file.RewindForBody();
      if first == null {
        return Some(WriteFailed), [], replayed;
      }
      replayed := Pass(first.data, later.data);
      var ok, binary, body := TransformSourceBodyReader(first, later);
      session.NoteFault(!ok && first.faulted);
      if !ok {
        return Some(WriteFailed), [], replayed;
      }
      if binary {
        return Some(BinaryOnReplay), [], replayed;
      }
      assert body.data[0..] == replayed.Bytes();
      var stats;
      ok, stats := RunTransformStream(body, opts, tmp.staged, spill, 0);
      session.NoteFault(!ok && (body.Unsteady() || tmp.staged.faulted || tmp.staged.cut));
      if !ok {
        return Some(WriteFailed), [], replayed;
      }
      sourceSHA := sha(body.data[..body.off]);
      assert body.data[..body.off] == replayed.Bytes();
      err := None;
    }

    /** A pass over the file, shown by the log, explains the error: the replayed bytes were binary, or had more blanks
        in a row than there is room for, or the replayed or the verified bytes are not those that were recorded. */
    ghost predicate Explained(err: CommitError, before: seq<Event>, after: seq<Event>, staging: string,
                              replayed: Pass, verified: Pass, opts: TransformOptions, spill: MemSpillBacking?)
      reads this
    {
      || (err == WriteFailed && OutOfRoom(replayed.Bytes(), opts, spill, LimitOf(0)) &&
          before + [Observed(replayed)] <= after)
      || (err == BinaryOnReplay && NullEarly(replayed.first) && before + [Observed(replayed)] <= after)
      || (err == ModifiedExternally && sha(replayed.Bytes()) != hash && before + [Observed(replayed)] <= after)
      || (err == ModifiedExternally && sha(verified.Bytes()) != hash &&
          before + [Observed(replayed), StagingClosed(staging), Observed(verified)] <= after)
    }

    /** Replays into the staging file, closes it, and verifies. */
    method ReplayAndVerify(tmp: TempFile, opts: TransformOptions, spill: MemSpillBacking?)
      returns (err: Option<CommitError>, closed: bool, ghost replayed: Pass, ghost verified: Pass)
      requires file == handle && handle.Held() && handle.session == session
      requires tmp.session == session && tmp.closes == 0 && tmp.staged.data == []
      modifies session`files, session`history, session`faulted, session`log, spill, tmp, tmp.staged
      ensures tmp.closes == (if closed then 1 else 0) && (old(session.faulted) ==> session.faulted)
      ensures NoRename(old(session.log), session.log)
      ensures Leads(old(session.log), session.log, HeldWith(tmp.path), if closed then HELD else HeldWith(tmp.path))
      ensures err == None ==> closed && tmp.staged.data == TransformBytes(replayed.Bytes(), opts)
      ensures err == None ==> sha(replayed.Bytes()) == hash == sha(verified.Bytes()) && !NullEarly(replayed.first)
      ensures err == None ==> session.log == old(session.log) + Verified(tmp.path, replayed, verified)
      ensures err.Some? && !session.faulted ==>
        Explained(err.value, old(session.log), session.log, tmp.path, replayed, verified, opts, spill)
    {
      var wrote, sourceSHA;
      wrote, sourceSHA, replayed := ReplayTransform(tmp, opts, spill);
      ghost var mid := session.log;
      LeadsNowhere(old(session.log), HeldWith(tmp.path));
      LeadsByOne(old(session.log), Observed(replayed), HeldWith(tmp.path));
      err, closed, verified := CloseAndVerify(tmp, wrote, sourceSHA);
      LeadsOn(old(session.log), mid, session.log, HeldWith(tmp.path), HeldWith(tmp.path),
              if closed then HELD else HeldWith(tmp.path));
    }

    lemma GivenUp(log: seq<Event>, staging: string)
      ensures Leads(log, log + [Unlocked, Closed], HELD, NOTHING_OPEN)
      ensures Leads(log, log + [Unlocked, Closed] + [StagingClosed(staging)], HeldWith(staging), NOTHING_OPEN)
      ensures NoRename(log, log + [Unlocked, Closed] + [StagingClosed(staging)])
    {
      LeadsByTwo(log, Unlocked, Closed, HELD, Book(true, false, {}));
      LeadsByTwo(log, Unlocked, Closed, HeldWith(staging), Book(true, false, {staging}));
      var letGo := log + [Unlocked, Closed];
      LeadsByOne(letGo, StagingClosed(staging), Book(false, false, {staging}));
      assert {staging} - {staging} == {};
      LeadsOn(log, letGo, letGo + [StagingClosed(staging)], HeldWith(staging), Book(false, false, {staging}),
              NOTHING_OPEN);
    }

    /** Lets the file go and then discards the staging file. */
    method GiveUp(tmp: TempFile, closed: bool) returns (ghost removed: bool)
      requires file == handle && handle.Held() && handle.session == session && done
      requires tmp.session == session && tmp.closes == if closed then 1 else 0
      modifies this`file, handle, session`temps, session`faulted, session`log, tmp
      ensures Valid() && tmp.closes == 1
      ensures session.temps == if removed then old(session.temps) - {tmp.path} else old(session.temps)
      ensures old(session.log) <= session.log && NoRename(old(session.log), session.log)
      ensures Leads(old(session.log), session.log, if closed then HELD else HeldWith(tmp.path), NOTHING_OPEN)
      ensures (!removed || old(session.faulted)) ==> session.faulted
    {
      GivenUp(session.log, tmp.path);
      Release();
      removed := Discard(tmp, closed);
    }

    /** From the created staging file on. */
    method ReplayVerifyAndRename(tmp: TempFile, opts: TransformOptions, spill: MemSpillBacking?)
      returns (err: Option<CommitError>, ghost replayed: Pass, ghost verified: Pass, ghost removed: bool)
      requires file == handle && handle.Held() && handle.session == session && done
      requires tmp.session == session && tmp.closes == 0 && tmp.path in session.temps && tmp.staged.data == []
      modifies this`file, handle, session, spill, tmp, tmp.staged
      ensures Valid() && tmp.closes == 1 && (old(session.faulted) ==> session.faulted)
      ensures Leads(old(session.log), session.log, HeldWith(tmp.path), NOTHING_OPEN)
      ensures Concluded(err == None, TransformBytes(replayed.Bytes(), opts))
      ensures err == None ==> session.log == old(session.log) + Verified(tmp.path, replayed, verified) +
                              Replaced(path, TransformBytes(replayed.Bytes(), opts))
      ensures err == None ==> sha(replayed.Bytes()) == hash == sha(verified.Bytes()) && !NullEarly(replayed.first)
      ensures err.Some? && !session.faulted ==>
        Explained(err.value, old(session.log), session.log, tmp.path, replayed, verified, opts, spill)
      ensures session.temps == if err == None || removed then old(session.temps) - {tmp.path} else old(session.temps)
      ensures err.Some? && !removed ==> session.faulted
    {
      var closed;
      err, closed, replayed, verified := ReplayAndVerify(tmp, opts, spill);
      ghost var mid, book := session.log, if closed then HELD else HeldWith(tmp.path);
      if err.Some? {
        removed := GiveUp(tmp, closed);
        NoRenameChain(old(session.log), mid, session.log);
      } else {
        err, removed := ReleaseAndRename(tmp);
      }
      LeadsOn(old(session.log), mid, session.log, HeldWith(tmp.path), book, NOTHING_OPEN);
    }

    /** A staging file stays behind only when something has failed. */
    twostate predicate TempsStay()
      reads session
    {
      session.temps == old(session.temps) || session.faulted
    }

    /** Over every interleaving and every fault. Success: in this order a staging file was created, one pass replayed
        into it, the staging file closed, one more pass verified, the lock let go, and the transform of the replayed
        bytes renamed into place; both passes have the recorded digest. An error: nothing was renamed. The lock is let
        go exactly once either way. */
    method CommitFromWriter(opts: TransformOptions, spill: MemSpillBacking?)
      returns (err: Option<CommitError>, ghost replayed: Pass, ghost verified: Pass, ghost removed: bool,
               ghost tmp: TempFile?)
      requires Valid()
      modifies this`file, this`done, handle, session, spill
      ensures Valid() && done && (old(session.faulted) ==> session.faulted)
      ensures Concluded(err == None, TransformBytes(replayed.Bytes(), opts))
      ensures err == None ==> !old(done) && tmp != null
      ensures err == None ==> session.log == old(session.log) + [Created(tmp.path)] +
                              Verified(tmp.path, replayed, verified) +
                              Replaced(path, TransformBytes(replayed.Bytes(), opts))
      ensures err == None ==> sha(replayed.Bytes()) == hash == sha(verified.Bytes())
      ensures err == None ==> forall i :: 0 <= i < |replayed.first| && i < 8000 ==> replayed.first[i] != 0
      ensures old(done) ==> err == Some(AlreadyDone) && tmp == null && session.log == old(session.log)
      ensures !old(done) && err.Some? && !session.faulted ==> tmp != null
      ensures !old(done) && err.Some? && !session.faulted ==>
        Explained(err.value, old(session.log) + [Created(tmp.path)], session.log, tmp.path, replayed, verified, opts,
                  spill)
      ensures !old(done) ==> Leads(old(session.log), session.log, HELD, NOTHING_OPEN)
      ensures err == None || removed || tmp == null ==> session.temps == old(session.temps)
      ensures TempsStay() && (err.Some? && tmp != null && !removed ==> session.faulted)
      ensures tmp != null ==> tmp.closes == 1
    {
      replayed, verified, removed, tmp := Pass([], []), Pass([], []), false, null;
      if done {
        return Some(AlreadyDone), replayed, verified, false, null;
      }
      done := true;
      OpenedInTurn(session.log);
      session.Interference();
      var staging := session.CreateTemp();
      if staging == null {
        Release();
        return Some(CreateTempFailed), replayed, verified, false, null;
      }
      session.Interference();
      err, replayed, verified, removed := ReplayVerifyAndRename(staging, opts, spill);
      tmp := staging;
      CreatedThenLetGo(old(session.log), session.log, tmp.path);
    }

    lemma CreatedThenLetGo(before: seq<Event>, after: seq<Event>, staging: string)
      requires Leads(before + [Created(staging)], after, HeldWith(staging), NOTHING_OPEN)
      ensures Leads(before, after, HELD, NOTHING_OPEN)
      ensures NoRename(before + [Created(staging)], after) ==> NoRename(before, after)
    {
      StagingInTurn(before, staging);
      LeadsOn(before, before + [Created(staging)], after, HELD, HeldWith(staging), NOTHING_OPEN);
    }

    lemma DiscardedThenLetGo(log: seq<Event>, staging: string)
      ensures Leads(log, log + [Unlocked, Closed], HELD, NOTHING_OPEN)
      ensures Leads(log, log + [StagingClosed(staging)] + [Unlocked, Closed], HeldWith(staging), NOTHING_OPEN)
      ensures NoRename(log, log + [StagingClosed(staging)] + [Unlocked, Closed])
    {
      OpenedInTurn(log);
      StagingInTurn(log, staging);
      var gone := log + [StagingClosed(staging)];
      OpenedInTurn(gone);
      LeadsOn(log, gone, gone + [Unlocked, Closed], HeldWith(staging), HELD, NOTHING_OPEN);
    }

    /** Discards the staging file and then lets the file go. */
    method DiscardAndRelease(tmp: TempFile, closed: bool) returns (ghost removed: bool)
      requires file == handle && handle.Held() && handle.session == session && done
      requires tmp.session == session && tmp.closes == if closed then 1 else 0
      modifies this`file, handle, session`temps, session`faulted, session`log, tmp
      ensures Valid() && tmp.closes == 1
      ensures session.temps == if removed then old(session.temps) - {tmp.path} else old(session.temps)
      ensures old(session.log) <= session.log && NoRename(old(session.log), session.log)
      ensures Leads(old(session.log), session.log, if closed then HELD else HeldWith(tmp.path), NOTHING_OPEN)
      ensures (!removed || old(session.faulted)) ==> session.faulted
    {
      DiscardedThenLetGo(session.log, tmp.path);
      removed := Discard(tmp, closed);
      Release();
    }

    /** The buffered content, from the created staging file on; an error discards it before the lock is let go. */
    method WriteVerifyAndRename(tmp: TempFile, newContent: seq<byte>)
      returns (err: Option<CommitError>, ghost verified: Pass, ghost removed: bool)
      requires file == handle && handle.Held() && handle.session == session && done
      requires tmp.session == session && tmp.closes == 0 && tmp.path in session.temps && tmp.staged.data == []
      modifies this`file, handle, session, tmp, tmp.staged
      ensures Valid() && tmp.closes == 1 && (old(session.faulted) ==> session.faulted)
      ensures Leads(old(session.log), session.log, HeldWith(tmp.path), NOTHING_OPEN)
      ensures Concluded(err == None, newContent)
      ensures err == None ==> sha(verified.Bytes()) == hash
      ensures err == None ==> session.log == old(session.log) + [StagingClosed(tmp.path), Observed(verified)] +
                              Replaced(path, newContent)
      ensures err.Some? && !session.faulted ==> err == Some(ModifiedExternally) && sha(verified.Bytes()) != hash
      ensures err.Some? && !session.faulted ==>
        old(session.log) + [StagingClosed(tmp.path), Observed(verified)] <= session.log
      ensures session.temps == if err == None || removed then old(session.temps) - {tmp.path} else old(session.temps)
      ensures err.Some? && !removed ==> session.faulted
    {
      var wrote := tmp.Write(newContent);
      assert wrote ==> tmp.staged.data == newContent;
      var closed;
      err, closed, verified := CloseAndVerify(tmp, if wrote then None else Some(WriteFailed), hash);
      ghost var mid, book := session.log, if closed then HELD else HeldWith(tmp.path);
      if err.Some? {
        removed := DiscardAndRelease(tmp, closed);
        NoRenameChain(old(session.log), mid, session.log);
      } else {
        err, removed := ReleaseAndRename(tmp);
      }
      LeadsOn(old(session.log), mid, session.log, HeldWith(tmp.path), book, NOTHING_OPEN);
    }

    /** The same for content the caller already has; only the verifying pass is left. */
    method CommitContent(newContent: seq<byte>)
      returns (err: Option<CommitError>, ghost verified: Pass, ghost removed: bool, ghost tmp: TempFile?)
      requires Valid()
      modifies this`file, this`done, handle, session
      ensures Valid() && done && (old(session.faulted) ==> session.faulted)
      ensures Concluded(err == None, newContent)
      ensures err == None ==> !old(done) && tmp != null
      ensures err == None ==> session.log == old(session.log) + [Created(tmp.path)] +
                              [StagingClosed(tmp.path), Observed(verified)] + Replaced(path, newContent)
      ensures err == None ==> sha(verified.Bytes()) == hash
      ensures old(done) ==> err == Some(AlreadyDone) && tmp == null && session.log == old(session.log)
      ensures !old(done) && err.Some? && !session.faulted ==>
        err == Some(ModifiedExternally) && tmp != null && sha(verified.Bytes()) != hash
      ensures !old(done) && err.Some? && !session.faulted ==>
        old(session.log) + [Created(tmp.path)] + [StagingClosed(tmp.path), Observed(verified)] <= session.log
      ensures !old(done) ==> Leads(old(session.log), session.log, HELD, NOTHING_OPEN)
      ensures err == None || removed || tmp == null ==> session.temps == old(session.temps)
      ensures TempsStay() && (err.Some? && tmp != null && !removed ==> session.faulted)
      ensures tmp != null ==> tmp.closes == 1
    {
      verified, removed, tmp := Pass([], []), false, null;
      if done {
        return Some(AlreadyDone), verified, false, null;
      }
      done := true;
      OpenedInTurn(session.log);
      session.Interference();
      var staging := session.CreateTemp();
      if staging == null {
        Release();
        return Some(CreateTempFailed), verified, false, null;
      }
      tmp := staging;
      ghost var before := session.log;
      err, verified, removed := WriteVerifyAndRename(staging, newContent);
      StagingInTurn(old(session.log), tmp.path);
      LeadsOn(old(session.log), before, session.log, HELD, HeldWith(tmp.path), NOTHING_OPEN);
      if err.Some? {
        NoRenameByOne(old(session.log), Created(tmp.path));
        NoRenameChain(old(session.log), before, session.log);
      }
    }
  }

  // ---------- a whole file transform ----------

  /** What a commit does once its staging file is created, in order: one pass is replayed into it, it is closed, and one
      more pass is verified. */
  ghost function Verified(staging: string, replayed: Pass, verified: Pass): seq<Event> {
    [Observed(replayed), StagingClosed(staging), Observed(verified)]
  }

  /** And then: the lock is let go, and the staging file takes the place of path. */
  ghost function Replaced(path: string, content: seq<byte>): seq<Event> {
    [Unlocked, Closed, Renamed(path, content)]
  }

  /** What the three passes over the file observed. */
  datatype Passes = Passes(inspected: Pass, replayed: Pass, verified: Pass)

  ghost predicate PassesAgree(sha: HashFunction, seen: Passes) {
    && SameBytes(sha, seen.inspected.Bytes(), seen.replayed.Bytes())
    && SameBytes(sha, seen.inspected.Bytes(), seen.verified.Bytes())
  }

  /** The whole run of an applied change: the file was opened and locked, inspected, replayed into a staging file,
      verified once that was closed, let go, and replaced by the transform of what was replayed. */
  twostate predicate Rewritten(session: FileSession, path: string, staging: string, seen: Passes, content: seq<byte>)
    reads session
  {
    && session.log == old(session.log) +
         [Opened, Locked, Observed(seen.inspected), Created(staging), Observed(seen.replayed), StagingClosed(staging),
          Observed(seen.verified), Unlocked, Closed, Renamed(path, content)]
    && path in session.files && session.files[path] == content
  }

  /** Opened, locked, looked at once, and let go. */
  twostate predicate OnlyInspected(session: FileSession, inspected: Pass)
    reads session
  {
    session.log == old(session.log) + [Opened, Locked, Observed(inspected), Unlocked, Closed]
  }

  lemma WholeRun(log: seq<Event>, path: string, staging: string, seen: Passes, content: seq<byte>)
    ensures log + [Opened, Locked] + [Observed(seen.inspected)] + [Created(staging)] +
            Verified(staging, seen.replayed, seen.verified) + Replaced(path, content) ==
            log + [Opened, Locked, Observed(seen.inspected), Created(staging), Observed(seen.replayed),
                   StagingClosed(staging), Observed(seen.verified), Unlocked, Closed, Renamed(path, content)]
    ensures log + [Opened, Locked] + [Observed(seen.inspected)] + [Unlocked, Closed] ==
            log + [Opened, Locked, Observed(seen.inspected), Unlocked, Closed]
  {
  }

  /** Two passes in the log, from some event on, whose bytes have different digests. */
  ghost predicate Disagree(log: seq<Event>, from: nat, sha: HashFunction) {
    exists i, j :: from <= i < j < |log| && Differ(log, i, j, sha)
  }

  ghost predicate Differ(log: seq<Event>, i: nat, j: nat, sha: HashFunction)
    requires i < j < |log|
  {
    log[i].Observed? && log[j].Observed? && sha(log[i].pass.Bytes()) != sha(log[j].pass.Bytes())
  }

  /** A pass that no replay gets through: a null byte turned up early, or more blanks in a row than there is room
      for. */
  ghost predicate Stuck(pass: Pass, opts: TransformOptions, spill: MemSpillBacking?) {
    NullEarly(pass.first) || OutOfRoom(pass.Bytes(), opts, spill, 65536)
  }

  /** Two passes differ, or one behind the first three events is stuck. */
  ghost predicate PassesTell(log: seq<Event>, from: nat, sha: HashFunction, opts: TransformOptions,
                             spill: MemSpillBacking?) {
    || Disagree(log, from, sha)
    || exists i :: from + 2 < i < |log| && log[i].Observed? && Stuck(log[i].pass, opts, spill)
  }

  lemma SeenOnce(log: seq<Event>, pass: Pass)
    ensures Leads(log, log + [Observed(pass)], HELD, HELD) && NoRename(log, log + [Observed(pass)])
    ensures Leads(log, log, HELD, HELD)
  {
    LeadsNowhere(log, HELD);
    LeadsByOne(log, Observed(pass), HELD);
  }

  /** What began by opening the file and has let it go since is settled. */
  lemma SettledFromOpened(before: seq<Event>, log: seq<Event>)
    requires Leads(before + [Opened, Locked], log, HELD, NOTHING_OPEN)
    ensures Settled(before, log)
  {
    OpenedInTurn(before);
    LeadsOn(before, before + [Opened, Locked], log, NOTHING_OPEN, HELD, NOTHING_OPEN);
  }

  lemma SettledAtLast(before: seq<Event>, log: seq<Event>)
    requires Leads(before + [Opened, Locked], log, HELD, HELD)
    ensures Settled(before, log + [Unlocked, Closed])
  {
    OpenedInTurn(log);
    LeadsOn(before + [Opened, Locked], log, log + [Unlocked, Closed], HELD, HELD, NOTHING_OPEN);
    SettledFromOpened(before, log + [Unlocked, Closed]);
  }

  /** Opened and locked, looked at once or not at all, and let go. */
  lemma LookedAndLetGo(before: seq<Event>, log: seq<Event>, pass: Pass)
    requires log == before + [Opened, Locked] || log == before + [Opened, Locked] + [Observed(pass)]
    ensures Settled(before, log + [Unlocked] + [Closed]) && NoRename(before, log + [Unlocked] + [Closed])
    ensures log == before + [Opened, Locked] + [Observed(pass)] ==>
      log + [Unlocked] + [Closed] == before + [Opened, Locked, Observed(pass), Unlocked, Closed]
  {
    SeenOnce(before + [Opened, Locked], pass);
    SettledAtLast(before, log);
    assert log + [Unlocked] + [Closed] == log + [Unlocked, Closed];
  }

  method PreviewTransform(session: FileSession, opts: TransformOptions, sha: HashFunction)
    returns (ok: bool, result: FileResult, ghost inspected: Pass)
    modifies session`faulted, session`log
    ensures ok ==> result == FileOutcome(inspected, opts) && OutcomeReads(result, inspected, opts)
    ensures ok ==> OnlyInspected(session, inspected)
    ensures (!ok || old(session.faulted)) ==> session.faulted
    ensures NoRename(old(session.log), session.log) && Tidy(session)
  {
    result, inspected := NOTHING_YET, Pass([], []);
    var file := OpenLocked(session);
    if file == null {
      return false, result, inspected;
    }
    var first, later := file.RewindForBody();
    if first == null {
      ok := false;
    } else {
      inspected := Pass(first.data, later.data);
      var digest;
      ok, result, digest := TransformLockedSourceBody(session, first, later, opts, sha);
    }
    OutcomeInBytes(inspected, opts);
    LookedAndLetGo(old(session.log), session.log, inspected);
    file.Unlock();
    file.Close();
  }

  /** Inspects the locked file and applies the change it calls for, if any. */
  method TransformUnderLock(mod: Modifier, opts: TransformOptions, spill: MemSpillBacking?)
    returns (ok: bool, result: FileResult, ghost seen: Passes, ghost staging: string)
    requires mod.Valid() && !mod.done && |mod.session.log| > 1
    modifies mod, mod.handle, mod.session, spill
    ensures mod.Valid() && (old(mod.session.faulted) ==> mod.session.faulted)
    ensures mod.done ==> Leads(old(mod.session.log), mod.session.log, HELD, NOTHING_OPEN)
    ensures !mod.done ==> Leads(old(mod.session.log), mod.session.log, HELD, HELD)
    ensures mod.TempsStay()
    ensures ok ==> result == FileOutcome(seen.inspected, opts)
    ensures ok && result.wouldChange ==> PassesAgree(mod.sha, seen) && mod.done
    ensures ok && result.wouldChange ==> var content := TransformBytes(seen.replayed.Bytes(), opts);
      && mod.session.log == old(mod.session.log) + [Observed(seen.inspected)] + [Created(staging)] +
                            Verified(staging, seen.replayed, seen.verified) + Replaced(mod.path, content)
      && mod.path in mod.session.files && mod.session.files[mod.path] == content
    ensures ok && !result.wouldChange ==> !mod.done
    ensures ok && !result.wouldChange ==> mod.session.log == old(mod.session.log) + [Observed(seen.inspected)]
    ensures !ok ==> NoRename(old(mod.session.log), mod.session.log)
    ensures !ok && !mod.session.faulted ==>
      PassesTell(mod.session.log, |old(mod.session.log)| - 2, mod.sha, opts, spill)
  {
    seen, staging := Passes(Pass([], []), Pass([], []), Pass([], [])), "";
    var digest;
    ghost var inspected;
    ok, result, digest, inspected := InspectTransformLockedSource(mod, opts);
    seen := seen.(inspected := inspected);
    mod.session.Interference();
    if ok && result.wouldChange && result.skipped == None {
      ghost var replayed, verified;
      ok, replayed, verified, staging := ApplyChange(mod, digest, opts, spill, inspected, old(mod.session.log));
      seen := seen.(replayed := replayed, verified := verified);
    }
  }

  /** The whole operation. It reports what the inspected bytes call for. When that is a change and it is to be applied,
      success means the three passes saw the same bytes, up to a collision, and exactly one rename put their transform
      in place; in every other case nothing is renamed. On every path the handle, the lock and the staging file are let
      go of in turn and exactly once. Without a fault the operation fails only when two passes differ, or a later one is
      binary or has more blanks in a row than there is room for. */
  method TransformFile(session: FileSession, path: string, opts: TransformOptions, apply: bool, sha: HashFunction,
                       spill: MemSpillBacking?)
    returns (ok: bool, result: FileResult, ghost seen: Passes, ghost staging: string)
    modifies session, spill
    ensures ok ==> result == FileOutcome(seen.inspected, opts) && OutcomeReads(result, seen.inspected, opts)
    ensures ok && result.skipped == Some(Binary) ==> NoRename(old(session.log), session.log)
    ensures ok && apply && result.wouldChange ==>
      sha(seen.inspected.Bytes()) == sha(seen.replayed.Bytes()) == sha(seen.verified.Bytes())
    ensures ok && apply && result.wouldChange ==> PassesAgree(sha, seen)
    ensures ok && apply && result.wouldChange ==>
      Rewritten(session, path, staging, seen, TransformBytes(seen.replayed.Bytes(), opts))
    ensures ok && !(apply && result.wouldChange) ==> OnlyInspected(session, seen.inspected)
    ensures !ok ==> NoRename(old(session.log), session.log)
    ensures !ok && !session.faulted ==> apply && PassesTell(session.log, |old(session.log)|, sha, opts, spill)
    ensures Tidy(session)
  {
    seen, staging := Passes(Pass([], []), Pass([], []), Pass([], [])), "";
    if !apply {
      ghost var inspected;
      ok, result, inspected := PreviewTransform(session, opts, sha);
      seen := seen.(inspected := inspected);
      return;
    }
    var file := OpenLocked(session);
    if file == null {
      return false, NOTHING_YET, seen, "";
    }
    var mod := new Modifier(path, session, sha, file);
    ok, result, seen, staging := TransformUnderLock(mod, opts, spill);
    ghost var log, done := session.log, mod.done;
    OutcomeInBytes(seen.inspected, opts);
    WholeRun(old(session.log), path, staging, seen, TransformBytes(seen.replayed.Bytes(), opts));
    mod.Abort();
    LetGoAtLast(old(session.log), log, session.log, done);
    LeftAlone(old(session.log), log, session.log, sha, opts, spill);
  }

  /** Letting the file go at last renames nothing and hides no pass. */
  lemma LeftAlone(before: seq<Event>, log: seq<Event>, after: seq<Event>, sha: HashFunction, opts: TransformOptions,
                  spill: MemSpillBacking?)
    requires after == log || after == log + [Unlocked, Closed]
    ensures NoRename(before + [Opened, Locked], log) ==> NoRename(before, after)
    ensures PassesTell(log, |before|, sha, opts, spill) ==> PassesTell(after, |before|, sha, opts, spill)
  {
    if NoRename(before + [Opened, Locked], log) {
      EndedWithoutRename(before, log, after);
    }
    if PassesTell(log, |before|, sha, opts, spill) {
      StillTells(log, after, |before|, sha, opts, spill);
    }
  }

  lemma LetGoAtLast(before: seq<Event>, log: seq<Event>, after: seq<Event>, done: bool)
    requires if done then Leads(before + [Opened, Locked], log, HELD, NOTHING_OPEN)
             else Leads(before + [Opened, Locked], log, HELD, HELD)
    requires after == if done then log else log + [Unlocked, Closed]
    ensures Settled(before, after)
  {
    if done {
      SettledFromOpened(before, log);
    } else {
      SettledAtLast(before, log);
    }
  }

  lemma EndedWithoutRename(before: seq<Event>, log: seq<Event>, after: seq<Event>)
    requires NoRename(before + [Opened, Locked], log) && (after == log || after == log + [Unlocked, Closed])
    ensures NoRename(before, after) && log <= after
  {
  }

  lemma StillDisagree(log: seq<Event>, later: seq<Event>, from: nat, start: nat, sha: HashFunction)
    requires log <= later && start <= from && Disagree(log, from, sha)
    ensures Disagree(later, start, sha)
  {
    var i, j :| from <= i < j < |log| && Differ(log, i, j, sha);
    assert Differ(later, i, j, sha);
  }

  lemma StillTells(log: seq<Event>, later: seq<Event>, from: nat, sha: HashFunction, opts: TransformOptions,
                   spill: MemSpillBacking?)
    requires log <= later && PassesTell(log, from, sha, opts, spill)
    ensures PassesTell(later, from, sha, opts, spill)
  {
    if Disagree(log, from, sha) {
      StillDisagree(log, later, from, from, sha);
    } else {
      var i :| from + 2 < i < |log| && log[i].Observed? && Stuck(log[i].pass, opts, spill);
      assert later[i].Observed? && Stuck(later[i].pass, opts, spill);
    }
  }

  /** The first pass under the lock. */
  method InspectTransformLockedSource(mod: Modifier, opts: TransformOptions)
    returns (ok: bool, result: FileResult, digest: Digest, ghost inspected: Pass)
    requires mod.Valid() && !mod.done
    modifies mod.session`faulted, mod.session`log
    ensures ok ==> result == FileOutcome(inspected, opts)
    ensures ok && result.skipped == None ==> digest == mod.sha(inspected.Bytes())
    ensures mod.session.log == old(mod.session.log) + [Observed(inspected)] ||
            (!ok && mod.session.log == old(mod.session.log))
    ensures Leads(old(mod.session.log), mod.session.log, HELD, HELD)
    ensures NoRename(old(mod.session.log), mod.session.log)
    ensures (!ok || old(mod.session.faulted)) ==> mod.session.faulted
  {
    result, digest, inspected := NOTHING_YET, [], Pass([], []);
    LeadsNowhere(mod.session.log, HELD);
    var first, later := mod.file.RewindForBody();
    if first == null {
      return false, result, digest, inspected;
    }
    inspected := Pass(first.data, later.data);
    SeenOnce(old(mod.session.log), inspected);
    ok, result, digest := TransformLockedSourceBody(mod.session, first, later, opts, mod.sha);
  }

  /** The commit of a change that inspection called for; before is the log before the inspection. */
  method ApplyChange(mod: Modifier, digest: Digest, opts: TransformOptions, spill: MemSpillBacking?,
                     ghost inspected: Pass, ghost before: seq<Event>)
    returns (ok: bool, ghost replayed: Pass, ghost verified: Pass, ghost staging: string)
    requires mod.Valid() && !mod.done && digest == mod.sha(inspected.Bytes())
    requires |before| > 1 && mod.session.log == before + [Observed(inspected)]
    modifies mod, mod.handle, mod.session, spill
    ensures mod.Valid() && mod.done && (old(mod.session.faulted) ==> mod.session.faulted)
    ensures Leads(before, mod.session.log, HELD, NOTHING_OPEN) && mod.TempsStay()
    ensures ok ==> PassesAgree(mod.sha, Passes(inspected, replayed, verified))
    ensures mod.Concluded(ok, TransformBytes(replayed.Bytes(), opts))
    ensures !ok ==> NoRename(before, mod.session.log)
    ensures ok ==> var content := TransformBytes(replayed.Bytes(), opts);
      mod.session.log == old(mod.session.log) + [Created(staging)] + Verified(staging, replayed, verified) +
                         Replaced(mod.path, content)
    ensures !ok && !mod.session.faulted ==> PassesTell(mod.session.log, |before| - 2, mod.sha, opts, spill)
  {
    mod.hash := digest;
    SeenOnce(before, inspected);
    ghost var started := mod.session.log;
    var err;
    ghost var removed, tmp;
    err, replayed, verified, removed, tmp := mod.CommitFromWriter(opts, spill);
    ok := err == None;
    staging := if tmp == null then "" else tmp.path;
    LeadsOn(before, started, mod.session.log, HELD, HELD, NOTHING_OPEN);
    if !ok {
      NoRenameChain(before, started, mod.session.log);
    }
    if !ok && !mod.session.faulted {
      ExplainedByPasses(mod, err.value, started, mod.session.log, tmp.path, inspected, replayed, verified, opts, spill);
    }
  }

  lemma ExplainedByPasses(mod: Modifier, err: CommitError, before: seq<Event>, after: seq<Event>, staging: string,
                          inspected: Pass, replayed: Pass, verified: Pass, opts: TransformOptions,
                          spill: MemSpillBacking?)
    requires |before| > 2 && before[|before| - 1] == Observed(inspected) && mod.hash == mod.sha(inspected.Bytes())
    requires mod.Explained(err, before + [Created(staging)], after, staging, replayed, verified, opts, spill)
    ensures PassesTell(after, |before| - 3, mod.sha, opts, spill)
  {
    var at, front := |before| - 1, before + [Created(staging)];
    assert front[at] == Observed(inspected);
    if front + [Observed(replayed)] <= after {
      assert after[at] == (front + [Observed(replayed)])[at] && after[at + 2] == (front + [Observed(replayed)])[at + 2];
      assert mod.sha(replayed.Bytes()) != mod.hash ==> Differ(after, at, at + 2, mod.sha);
    }
    var all := front + [Observed(replayed), StagingClosed(staging), Observed(verified)];
    if all <= after {
      assert after[at] == all[at] && after[at + 4] == all[at + 4];
      assert mod.sha(verified.Bytes()) != mod.hash ==> Differ(after, at, at + 4, mod.sha);
    }
  }

  /** Reads the locked file and commits newContent unless the file has changed since. */
  method ReplaceUnderLock(mod: Modifier, newContent: seq<byte>)
    returns (ok: bool, ghost read: Pass, ghost verified: Pass, ghost staging: string)
    requires mod.Valid() && !mod.done
    modifies mod, mod.handle, mod.session
    ensures mod.Valid() && (ok ==> mod.done)
    ensures mod.done ==> Leads(old(mod.session.log), mod.session.log, HELD, NOTHING_OPEN)
    ensures !mod.done ==> Leads(old(mod.session.log), mod.session.log, HELD, HELD)
    ensures mod.TempsStay()
    ensures ok ==> SameBytes(mod.sha, read.Bytes(), verified.Bytes())
    ensures ok ==> mod.path in mod.session.files && mod.session.files[mod.path] == newContent
    ensures ok ==> mod.session.log == old(mod.session.log) + [Observed(read)] + [Created(staging)] +
                                      [StagingClosed(staging), Observed(verified)] + Replaced(mod.path, newContent)
    ensures !ok ==> NoRename(old(mod.session.log), mod.session.log)
    ensures !ok && !mod.session.faulted ==> Disagree(mod.session.log, |old(mod.session.log)|, mod.sha)
    ensures old(mod.session.faulted) ==> mod.session.faulted
  {
    read, verified, staging := Pass([], []), Pass([], []), "";
    var src := mod.file.Rewind();
    SeenOnce(old(mod.session.log), if src == null then read else Pass(src.data, []));
    if src == null {
      return false, read, verified, "";
    }
    read := Pass(src.data, []);
    var digest;
    ok, digest := mod.HashCurrentFileForCAS(src);
    mod.session.NoteFault(!ok && src.faulted);
    if ok {
      mod.hash := digest;
      ghost var before := mod.session.log;
      var err;
      ghost var removed, tmp;
      err, verified, removed, tmp := mod.CommitContent(newContent);
      ok := err == None;
      staging := if tmp == null then "" else tmp.path;
      LeadsOn(old(mod.session.log), before, mod.session.log, HELD, HELD, NOTHING_OPEN);
      if !ok {
        NoRenameChain(old(mod.session.log), before, mod.session.log);
        if !mod.session.faulted {
          var at := |old(mod.session.log)|;
          assert mod.session.log[at] == Observed(read) && mod.session.log[at + 3] == Observed(verified);
          assert Differ(mod.session.log, at, at + 3, mod.sha);
        }
      }
    }
  }

  /** The buffered form: content read under the lock, then replaced by newContent unless the file has changed since. */
  method ReplaceContent(session: FileSession, path: string, newContent: seq<byte>, sha: HashFunction)
    returns (ok: bool, ghost read: Pass, ghost verified: Pass, ghost staging: string)
    modifies session
    ensures ok ==> SameBytes(sha, read.Bytes(), verified.Bytes())
    ensures ok ==> path in session.files && session.files[path] == newContent
    ensures ok ==> session.log == old(session.log) + [Opened, Locked] + [Observed(read)] + [Created(staging)] +
                                  [StagingClosed(staging), Observed(verified)] + Replaced(path, newContent)
    ensures !ok ==> NoRename(old(session.log), session.log)
    ensures !ok && !session.faulted ==> Disagree(session.log, |old(session.log)|, sha)
    ensures Tidy(session)
  {
    read, verified, staging := Pass([], []), Pass([], []), "";
    var file := OpenLocked(session);
    if file == null {
      return false, read, verified, "";
    }
    var mod := new Modifier(path, session, sha, file);
    ok, read, verified, staging := ReplaceUnderLock(mod, newContent);
    ghost var log, done := session.log, mod.done;
    mod.Abort();
    LetGoAtLast(old(session.log), log, session.log, done);
    if !ok {
      EndedWithoutRename(old(session.log), log, session.log);
      if Disagree(log, |old(session.log)| + 2, sha) {
        StillDisagree(log, session.log, |old(session.log)| + 2, |old(session.log)|, sha);
      }
    }
  }
}
