/** Publishing one file: staged in full beside its destination, then renamed into place. */
module AtomicPublish {
  import opened Bytes
  import opened Streams
  import opened FileSessions

  datatype Mode = Create | Replace | Append

  /** The write callback: absent, or one that writes these chunks in order, gives up at the first write that fails, and
      in the end accepts what it has written or reports an error of its own. */
  datatype Content = NoCallback | Callback(chunks: seq<seq<byte>>, accepts: bool)

  function Joined(chunks: seq<seq<byte>>): seq<byte> {
    if chunks == [] then [] else Joined(chunks[..|chunks| - 1]) + chunks[|chunks| - 1]
  }

  /** One after the other, nothing left out and nothing added. */
  lemma {:induction false} JoinedInOrder(a: seq<seq<byte>>, b: seq<seq<byte>>, chunk: seq<byte>)
    ensures Joined([]) == [] && Joined([chunk]) == chunk
    ensures Joined(a + b) == Joined(a) + Joined(b)
    decreases |b|
  {
    assert [chunk][..0] == [];
    if b == [] {
      assert a + b == a;
    } else {
      JoinedInOrder(a, b[..|b| - 1], chunk);
      assert (a + b)[..|a + b| - 1] == a + b[..|b| - 1];
    }
  }

  datatype PublishError =
    | NilContent | DestinationExists | CheckFailed | CreateTempFailed | CopyExistingFailed
    | WriteFailed | SyncFailed | CloseFailed | ChmodFailed | RenameFailed

  datatype PublishResult = Published | NotPublished(error: PublishError, closeFailed: bool, removeFailed: bool)

  /** What an append starts from. */
  function Existing(files: map<string, seq<byte>>, path: string, mode: Mode): seq<byte> {
    if mode.Append? && path in files then files[path] else []
  }

  /** One staging file is open. */
  ghost function Staging(path: string): Book {
    Book(false, false, {path})
  }

  // ---------- the steps ----------

  method DestinationExistsCheck(session: FileSession, path: string) returns (found: bool, ok: bool)
    modifies session`faulted
    ensures ok ==> found == (path in session.files)
    ensures session.faulted == (old(session.faulted) || !ok)
  {
    var status, content := session.OpenRead(path);
    match status
    case Found =>
      ok := session.CloseRead();
      found := true;
    case NotExist => found, ok := false, true;
    case OpenFailed => found, ok := false, false;
  }

  /** A destination that the check sees stops a create; the other modes do not look. */
  method RejectExistingWhenCreate(session: FileSession, path: string, mode: Mode) returns (err: Option<PublishError>)
    modifies session`faulted
    ensures mode.Create? && err == None ==> path !in session.files
    ensures err == Some(DestinationExists) ==> mode.Create? && path in session.files
    ensures !mode.Create? ==> err == None
    ensures err.Some? && err != Some(DestinationExists) ==> err == Some(CheckFailed) && session.faulted
    ensures old(session.faulted) ==> session.faulted
  {
    if !mode.Create? {
      return None;
    }
    var found, ok := DestinationExistsCheck(session, path);
    err := if !ok then Some(CheckFailed) else if found then Some(DestinationExists) else None;
  }

  /** io.Copy from an open file. */
  method CopyAll(dst: Sink, src: Source) returns (ok: bool)
    requires src.off == 0
    modifies dst, src
    ensures old(dst.data) <= dst.data
    ensures ok ==> dst.data == old(dst.data) + src.data
    ensures !ok ==> src.faulted || dst.faulted || dst.cut
  {
    var status := More;
    while status == More
      invariant src.off <= |src.data| && dst.data == old(dst.data) + src.data[..src.off]
      invariant status == AtEnd ==> src.off == |src.data|
      invariant status == Failed ==> src.faulted
      decreases |src.data| - src.off, src.idle, status == More
    {
      ghost var at := src.off;
      var chunk;
      chunk, status := src.Read(32 * 1024);
      assert src.data[..at] + chunk == src.data[..src.off];
      if chunk != [] {
        ok := WriteOnce(dst, chunk);
        if !ok {
          return;
        }
      }
    }
    ok := status == AtEnd;
  }

  method CopyExistingIfPresent(session: FileSession, path: string, tmp: TempFile) returns (ok: bool)
    requires tmp.staged.data == []
    modifies tmp.staged, session`faulted
    ensures ok ==> tmp.staged.data == if path in session.files then session.files[path] else []
    ensures (!ok || old(session.faulted)) ==> session.faulted
  {
    var status, content := session.OpenRead(path);
    if status.NotExist? {
      return true;
    }
    if status.OpenFailed? {
      return false;
    }
    ok := CopyAll(tmp.staged, content);
    session.NoteFault(!ok && (content.faulted || tmp.staged.faulted || tmp.staged.cut));
    var closed := session.CloseRead();
    ok := ok && closed;
  }

  /** Everything before the write callback runs. A temp file that comes with an error is still to be cleaned up. */
  method OpenStaging(session: FileSession, path: string, mode: Mode) returns (err: Option<PublishError>, tmp: TempFile?)
    modifies session`temps, session`faulted, session`log
    ensures err == None ==> tmp != null && tmp.staged.data == Existing(session.files, path, mode)
    ensures err == None && mode.Create? ==> path !in session.files
    ensures err == Some(DestinationExists) ==> mode.Create? && path in session.files
    ensures (err.Some? && err != Some(DestinationExists)) || old(session.faulted) ==> session.faulted
    ensures tmp == null ==> err.Some? && session.temps == old(session.temps) && session.log == old(session.log)
    ensures tmp != null ==> fresh(tmp) && fresh(tmp.staged) && tmp.closes == 0 && tmp.session == session
    ensures tmp != null ==> tmp.path !in old(session.temps) && session.temps == old(session.temps) + {tmp.path}
    ensures tmp != null ==> session.log == old(session.log) + [Created(tmp.path)] && err != Some(DestinationExists)
  {
    tmp := null;
    err := RejectExistingWhenCreate(session, path, mode);
    if err.Some? {
      return;
    }
    tmp := session.CreateTemp();
    if tmp == null {
      return Some(CreateTempFailed), null;
    }
    if mode.Append? {
      var copied := CopyExistingIfPresent(session, path, tmp);
      if !copied {
        err := Some(CopyExistingFailed);
      }
    }
  }

  method SyncClose(tmp: TempFile) returns (closed: bool, err: Option<PublishError>)
    modifies tmp, tmp.session`faulted, tmp.session`log
    ensures tmp.closes == old(tmp.closes) + if closed then 1 else 0
    ensures tmp.session.log == if closed then old(tmp.session.log) + [StagingClosed(tmp.path)] else old(tmp.session.log)
    ensures if err == None then closed else err.value.SyncFailed? || err.value.CloseFailed?
    ensures (err.Some? || old(tmp.session.faulted)) ==> tmp.session.faulted
  {
    var synced := tmp.Sync();
    if !synced {
      return false, Some(SyncFailed);
    }
    var ok := tmp.Close();
    return true, if ok then None else Some(CloseFailed);
  }

  /** Closes the handle unless that was done, then removes the staging file; the first error is kept. */
  method CleanupOnError(session: FileSession, tmp: TempFile, closed: bool, err: PublishError) returns (r: PublishResult)
    requires tmp.session == session
    modifies session`temps, session`faulted, session`log, tmp
    ensures r.NotPublished? && r.error == err
    ensures tmp.closes == old(tmp.closes) + if closed then 0 else 1
    ensures session.temps == if r.removeFailed then old(session.temps) else old(session.temps) - {tmp.path}
    ensures session.log == if closed then old(session.log) else old(session.log) + [StagingClosed(tmp.path)]
    ensures (r.closeFailed || r.removeFailed || old(session.faulted)) ==> session.faulted
  {
    var closeOK := true;
    if !closed {
      closeOK := tmp.Close();
    }
    var removed := session.Remove(tmp);
    r := NotPublished(err, !closeOK, !removed);
  }

  lemma CreatedInTurn(log: seq<Event>, path: string)
    ensures Leads(log, log + [Created(path)], NOTHING_OPEN, Staging(path))
  {
    LeadsByOne(log, Created(path), NOTHING_OPEN);
    assert {} + {path} == {path};
  }

  lemma ClosedInTurn(log: seq<Event>, path: string)
    ensures Leads(log, log + [StagingClosed(path)], Staging(path), NOTHING_OPEN)
    ensures NoRename(log, log + [StagingClosed(path)])
  {
    LeadsByOne(log, StagingClosed(path), Staging(path));
    assert {path} - {path} == {};
  }

  lemma ClosedAndRenamed(log: seq<Event>, path: string, target: string, content: seq<byte>)
    ensures Leads(log, log + [StagingClosed(path), Renamed(target, content)], Staging(path), NOTHING_OPEN)
  {
    assert {path} - {path} == {};
    LeadsByTwo(log, StagingClosed(path), Renamed(target, content), Staging(path), NOTHING_OPEN);
  }

  /** Everything after the write callback has run. */
  method CompletePublish(session: FileSession, path: string, tmp: TempFile, err: Option<PublishError>)
    returns (r: PublishResult)
    requires tmp.path in session.temps && tmp.closes == 0 && tmp.session == session
    modifies session, tmp
    ensures tmp.closes == 1 && Leads(old(session.log), session.log, Staging(tmp.path), NOTHING_OPEN)
    ensures err.Some? ==> r.NotPublished? && r.error == err.value
    ensures r.NotPublished? && (r.closeFailed || r.removeFailed) ==> session.faulted
    ensures r.NotPublished? ==> session.files == old(session.files) && session.history == old(session.history)
    ensures r.NotPublished? ==> NoRename(old(session.log), session.log)
    ensures r.NotPublished? ==>
      session.temps == if r.removeFailed then old(session.temps) else old(session.temps) - {tmp.path}
    ensures r.NotPublished? && err == None ==> !r.error.DestinationExists? && session.faulted
    ensures old(session.faulted) ==> session.faulted
    ensures r.Published? ==> session.files == old(session.files)[path := tmp.staged.data]
    ensures r.Published? ==> session.history == old(session.history) + [session.files]
    ensures r.Published? ==>
      session.log == old(session.log) + [StagingClosed(tmp.path), Renamed(path, tmp.staged.data)]
    ensures r.Published? ==> session.temps == old(session.temps) - {tmp.path}
  {
    var closed, failure := false, err;
    ClosedInTurn(session.log, tmp.path);
    ClosedAndRenamed(session.log, tmp.path, path, tmp.staged.data);
    if failure == None {
      closed, failure := SyncClose(tmp);
    }
    if failure == None {
      var changed := session.Chmod(tmp);
      failure := if changed then None else Some(ChmodFailed);
    }
    if failure == None {
      var renamed := session.Rename(tmp, path);
      failure := if renamed then None else Some(RenameFailed);
    }
    if failure == None {
      return Published;
    }
    r := CleanupOnError(session, tmp, closed, failure.value);
  }

  // ---------- the whole protocol ----------

  method WriteContent(w: Sink, content: Content) returns (ok: bool)
    requires content.Callback?
    modifies w
    ensures ok ==> content.accepts && w.data == old(w.data) + Joined(content.chunks)
    ensures !ok ==> !content.accepts || w.faulted
  {
    for i := 0 to |content.chunks|
      invariant w.data == old(w.data) + Joined(content.chunks[..i])
    {
      assert content.chunks[..i + 1][..i] == content.chunks[..i];
      ok := WriteFull(w, content.chunks[i]);
      if !ok {
        return;
      }
    }
    assert content.chunks[..|content.chunks|] == content.chunks;
    ok := content.accepts;
  }

  /** What a run may have done to the settled files: nothing at all, or in a single step one complete new file. */
  twostate predicate AllOrNothing(session: FileSession, r: PublishResult, path: string, content: seq<byte>)
    reads session
  {
    if r.Published? then
      && session.files == old(session.files)[path := content]
      && session.history == old(session.history) + [session.files]
    else
      && session.files == old(session.files)
      && session.history == old(session.history)
      && NoRename(old(session.log), session.log)
  }

  /** A staging file is left behind only by a removal that was reported to have failed, and did. */
  twostate predicate NoTempLeft(session: FileSession, r: PublishResult)
    reads session
  {
    && (r.Published? || !r.removeFailed ==> session.temps == old(session.temps))
    && (r.NotPublished? && (r.closeFailed || r.removeFailed) ==> session.faulted)
  }

  /** Created, closed, and only then renamed. */
  twostate predicate InOrder(session: FileSession, staging: string, path: string)
    reads session
  {
    && path in session.files
    && session.log == old(session.log) + [Created(staging), StagingClosed(staging), Renamed(path, session.files[path])]
  }

  /** With failures at any steps: nil means the destination holds exactly what an append starts from followed by
      everything the callback wrote; an error means it never was anything but its old content. The staging file is
      closed exactly once on every path, before the rename. Without a fault the only errors are a missing callback, a
      destination that exists, and the callback's own. */
  method Publish(session: FileSession, path: string, mode: Mode, content: Content)
    returns (r: PublishResult, ghost tmp: TempFile?)
    modifies session
    ensures r.Published? ==> content.Callback? && content.accepts
    ensures content.Callback? ==>
      AllOrNothing(session, r, path, old(Existing(session.files, path, mode)) + Joined(content.chunks))
    ensures r.Published? && mode.Append? && path in old(session.files) ==>
      session.files[path] == old(session.files[path]) + Joined(content.chunks)
    ensures r.Published? && (!mode.Append? || path !in old(session.files)) ==>
      session.files[path] == Joined(content.chunks)
    ensures r.Published? && mode.Create? ==> path !in old(session.files)
    ensures content == NoCallback ==> r == NotPublished(NilContent, false, false) && tmp == null
    ensures r.NotPublished? ==> AllOrNothing(session, r, path, [])
    ensures NoTempLeft(session, r) && Settled(old(session.log), session.log)
    ensures tmp != null ==> tmp.closes == 1
    ensures r.Published? ==> tmp != null && InOrder(session, tmp.path, path)
    ensures r.NotPublished? && !session.faulted && content.Callback? ==>
      if r.error.DestinationExists? then mode.Create? && path in old(session.files)
      else r.error.WriteFailed? && !content.accepts
  {
    tmp := null;
    LeadsNowhere(session.log, NOTHING_OPEN);
    if content == NoCallback {
      return NotPublished(NilContent, false, false), null;
    }
    var err, staging := OpenStaging(session, path, mode);
    if staging == null {
      return NotPublished(err.value, false, false), null;
    }
    if err == None {
      var wrote := WriteContent(staging.staged, content);
      session.NoteFault(staging.staged.faulted);
      err := if wrote then None else Some(WriteFailed);
    }
    CreatedInTurn(old(session.log), staging.path);
    r := CompletePublish(session, path, staging, err);
    LeadsOn(old(session.log), old(session.log) + [Created(staging.path)], session.log, NOTHING_OPEN,
            Staging(staging.path), NOTHING_OPEN);
    tmp := staging;
  }
}
