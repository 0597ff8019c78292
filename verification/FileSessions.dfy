/** The file system as the publication protocols see it: settled files by path, staging files, locked files, and
    operations that may fail at any time. A log records, in order, what was done and what was observed. */
module FileSessions {
  import opened Bytes
  import opened Streams
  import opened Naming

  const TEMP_PREFIX: string := ".glyph-shift-"
  const BINARY_CHECK_SIZE: nat := 8000

  /** What one pass over a file read: first up to the first reported end of the file, and later what turned up behind
      that end, which other programs may have appended in the meantime. Reading goes on behind the end only when the
      binary check has met it. */
  datatype Pass = Pass(first: seq<byte>, later: seq<byte>)
  {
    function Window(): seq<byte> {
      if |first| > BINARY_CHECK_SIZE then first[..BINARY_CHECK_SIZE] else first
    }

    function Bytes(): (read: seq<byte>)
      ensures |first| <= 8000 ==> read == first + later
      ensures |first| > 8000 || later == [] ==> read == first
    {
      if |first| > BINARY_CHECK_SIZE || later == [] then first else first + later
    }
  }

  datatype Event =
    | Created(path: string) | StagingClosed(path: string) | Renamed(path: string, content: seq<byte>)
    | Opened | Locked | Observed(pass: Pass) | Unlocked | Closed

  /** The log has only grown, and by no rename. */
  ghost predicate NoRename(before: seq<Event>, after: seq<Event>) {
    before <= after && forall i :: |before| <= i < |after| ==> !after[i].Renamed?
  }

  lemma NoRenameChain(a: seq<Event>, b: seq<Event>, c: seq<Event>)
    requires NoRename(a, b) && NoRename(b, c)
    ensures NoRename(a, c)
  {
  }

  lemma NoRenameByOne(log: seq<Event>, e: Event)
    requires !e.Renamed?
    ensures NoRename(log, log + [e])
  {
  }

  // ---------- what a log leaves open ----------

  /** A handle that may be locked, and the staging files that are not closed yet. */
  datatype Book = Book(open: bool, locked: bool, staging: set<string>)

  const NOTHING_OPEN := Book(false, false, {})

  /** What is open after one more event; None when the event is out of turn. A file is opened, locked, unlocked and
      closed in this order, a pass over an open file is made under its lock, a rename waits until the file is let go,
      and a staging file is closed once. */
  ghost function Enter(book: Book, e: Event): Option<Book> {
    match e
    case Opened => if book.open then None else Some(book.(open := true))
    case Locked => if book.open && !book.locked then Some(book.(locked := true)) else None
    case Observed(_) => if book.open && !book.locked then None else Some(book)
    case Unlocked => if book.locked then Some(book.(locked := false)) else None
    case Closed => if book.open && !book.locked then Some(book.(open := false)) else None
    case Created(path) => if path in book.staging then None else Some(book.(staging := book.staging + {path}))
    case StagingClosed(path) => if path in book.staging then Some(book.(staging := book.staging - {path})) else None
    case Renamed(_, _) => if book.open then None else Some(book)
  }

  ghost function EnterAll(book: Book, events: seq<Event>): Option<Book> {
    if events == [] then Some(book)
    else
      var before := EnterAll(book, events[..|events| - 1]);
      if before == None then None else Enter(before.value, events[|events| - 1])
  }

  /** The log has grown by events in turn, which lead from one state of what is open to the other. */
  ghost predicate Leads(before: seq<Event>, after: seq<Event>, from: Book, to: Book) {
    before <= after && EnterAll(from, after[|before|..]) == Some(to)
  }

  /** Everything opened since has been closed again, in turn and exactly once. */
  ghost predicate Settled(before: seq<Event>, after: seq<Event>) {
    Leads(before, after, NOTHING_OPEN, NOTHING_OPEN)
  }

  lemma LeadsNowhere(log: seq<Event>, book: Book)
    ensures Leads(log, log, book, book)
  {
    assert log[|log|..] == [];
  }

  lemma {:induction false} EnterAllAppend(book: Book, first: seq<Event>, second: seq<Event>)
    requires EnterAll(book, first).Some?
    ensures EnterAll(book, first + second) == EnterAll(EnterAll(book, first).value, second)
    decreases |second|
  {
    if second == [] {
      assert first + second == first;
    } else {
      assert (first + second)[..|first + second| - 1] == first + second[..|second| - 1];
      EnterAllAppend(book, first, second[..|second| - 1]);
    }
  }

  lemma LeadsOn(a: seq<Event>, b: seq<Event>, c: seq<Event>, x: Book, y: Book, z: Book)
    requires Leads(a, b, x, y) && Leads(b, c, y, z)
    ensures Leads(a, c, x, z)
  {
    assert c[|a|..] == b[|a|..] + c[|b|..];
    EnterAllAppend(x, b[|a|..], c[|b|..]);
  }

  lemma LeadsByOne(log: seq<Event>, e: Event, book: Book)
    ensures Enter(book, e).Some? ==> Leads(log, log + [e], book, Enter(book, e).value)
  {
    assert (log + [e])[|log|..] == [e];
    assert [e][..0] == [];
  }

  lemma LeadsByTwo(log: seq<Event>, d: Event, e: Event, x: Book, y: Book)
    requires Enter(x, d) == Some(y) && Enter(y, e).Some?
    ensures Leads(log, log + [d, e], x, Enter(y, e).value)
  {
    LeadsByOne(log, d, x);
    LeadsByOne(log + [d], e, y);
    LeadsOn(log, log + [d], log + [d] + [e], x, y, Enter(y, e).value);
    assert log + [d] + [e] == log + [d, e];
  }

  // ---------- a log in turn, told by counting ----------

  /** What is open tells opened from closed, locked from unlocked, and created from closed. */
  ghost predicate Balances(book: Book, seen: multiset<Event>) {
    && seen[Opened] == seen[Closed] + (if book.open then 1 else 0)
    && seen[Locked] == seen[Unlocked] + (if book.locked then 1 else 0)
    && forall path :: seen[Created(path)] == seen[StagingClosed(path)] + if path in book.staging then 1 else 0
  }

  lemma BalancesNext(book: Book, e: Event, seen: multiset<Event>)
    requires Balances(book, seen) && Enter(book, e).Some?
    ensures Balances(Enter(book, e).value, seen + multiset{e})
  {
  }

  lemma {:induction false} BooksBalance(events: seq<Event>)
    requires EnterAll(NOTHING_OPEN, events).Some?
    ensures Balances(EnterAll(NOTHING_OPEN, events).value, multiset(events))
    decreases |events|
  {
    if events != [] {
      var front, e := events[..|events| - 1], events[|events| - 1];
      BooksBalance(front);
      BalancesNext(EnterAll(NOTHING_OPEN, front).value, e, multiset(front));
      assert events == front + [e];
    }
  }

  /** Event e comes in turn behind those seen: a file is not opened twice, looked at only under its lock, and let go
      before a rename; a staging file is closed once. */
  ghost predicate InTurn(seen: multiset<Event>, e: Event) {
    match e
    case Opened => seen[Opened] == seen[Closed]
    case Locked => seen[Opened] == seen[Closed] + 1 && seen[Locked] == seen[Unlocked]
    case Observed(_) => seen[Opened] == seen[Closed] || seen[Locked] == seen[Unlocked] + 1
    case Unlocked => seen[Locked] == seen[Unlocked] + 1
    case Closed => seen[Opened] == seen[Closed] + 1 && seen[Locked] == seen[Unlocked]
    case Created(path) => seen[Created(path)] == seen[StagingClosed(path)]
    case StagingClosed(path) => seen[Created(path)] == seen[StagingClosed(path)] + 1
    case Renamed(_, _) => seen[Opened] == seen[Closed]
  }

  lemma {:induction false} EveryEventInTurn(events: seq<Event>, i: nat)
    requires EnterAll(NOTHING_OPEN, events).Some? && i < |events|
    ensures InTurn(multiset(events[..i]), events[i])
    decreases |events|
  {
    var front := events[..|events| - 1];
    if i < |front| {
      EveryEventInTurn(front, i);
      assert front[..i] == events[..i];
    } else {
      BooksBalance(front);
    }
  }

  /** What has settled: everything came in turn, as often opened as closed, locked as unlocked, created as closed. */
  lemma SettledInCounts(before: seq<Event>, after: seq<Event>)
    requires Settled(before, after)
    ensures before <= after
    ensures var since := after[|before|..];
      && (forall i :: 0 <= i < |since| ==> InTurn(multiset(since[..i]), since[i]))
      && multiset(since)[Opened] == multiset(since)[Closed] && multiset(since)[Locked] == multiset(since)[Unlocked]
      && forall path :: multiset(since)[Created(path)] == multiset(since)[StagingClosed(path)]
  {
    var since := after[|before|..];
    BooksBalance(since);
    forall i | 0 <= i < |since| ensures InTurn(multiset(since[..i]), since[i]) {
      EveryEventInTurn(since, i);
    }
  }

  // ---------- handles ----------

  /** A staging file and the handle it was created with. */
  class TempFile {
    const session: FileSession
    const path: string
    const staged: Sink
    var closes: nat

    constructor (session: FileSession, path: string)
      ensures this.session == session && this.path == path
      ensures fresh(staged) && staged.data == [] && !staged.faulted && !staged.cut && closes == 0
    {
      this.session, this.path := session, path;
      this.staged := new Sink();
      this.closes := 0;
    }

    /** One write to a file: short only when it reports an error. */
    method Write(chunk: seq<byte>) returns (ok: bool)
      modifies staged, session`faulted
      ensures if ok then staged.data == old(staged.data) + chunk else old(staged.data) <= staged.data
      ensures session.faulted == (old(session.faulted) || !ok)
    {
      var n, wrote := staged.Write(chunk);
      ok := wrote && n == |chunk|;
      session.NoteFault(!ok);
    }

    method Sync() returns (ok: bool)
      modifies session`faulted
      ensures session.faulted == (old(session.faulted) || !ok)
    {
      ok := *;
      session.NoteFault(!ok);
    }

    /** The handle is gone even when closing reports an error. */
    method Close() returns (ok: bool)
      modifies this, session`faulted, session`log
      ensures closes == old(closes) + 1 && session.log == old(session.log) + [StagingClosed(path)]
      ensures session.faulted == (old(session.faulted) || !ok)
    {
      closes := closes + 1;
      session.log := session.log + [StagingClosed(path)];
      ok := *;
      session.NoteFault(!ok);
    }
  }

  /** An open file and how often it was locked, unlocked and closed. */
  class LockedFile {
    const session: FileSession
    var locks: nat
    var unlocks: nat
    var closes: nat

    constructor (session: FileSession)
      modifies session`log
      ensures this.session == session && locks == 0 && unlocks == 0 && closes == 0
      ensures session.log == old(session.log) + [Opened]
    {
      this.session := session;
      locks, unlocks, closes := 0, 0, 0;
      new;
      session.log := session.log + [Opened];
    }

    ghost predicate Held()
      reads this
    {
      locks == 1 && unlocks == 0 && closes == 0
    }

    /** Unlocked exactly as often as locked, and closed exactly once. */
    ghost predicate LetGo()
      reads this
    {
      unlocks == locks <= 1 && closes == 1
    }

    method Lock() returns (ok: bool)
      modifies this`locks, session`faulted, session`log
      ensures locks == old(locks) + if ok then 1 else 0
      ensures session.log == if ok then old(session.log) + [Locked] else old(session.log)
      ensures session.faulted == (old(session.faulted) || !ok)
    {
      ok := *;
      if ok {
        locks := locks + 1;
        session.log := session.log + [Locked];
      }
      session.NoteFault(!ok);
    }

    method Unlock()
      modifies this`unlocks, session`log
      ensures unlocks == old(unlocks) + 1 && session.log == old(session.log) + [Unlocked]
    {
      unlocks := unlocks + 1;
      session.log := session.log + [Unlocked];
    }

    method Close()
      modifies this`closes, session`log
      ensures closes == old(closes) + 1 && session.log == old(session.log) + [Closed]
    {
      closes := closes + 1;
      session.log := session.log + [Closed];
    }

    /** Seeks to the start for one pass up to the end of the file. The pass observes some bytes, whatever other programs
        do meanwhile. */
    method Rewind() returns (pass: Source?)
      requires Held()
      modifies session`faulted, session`log
      ensures pass != null ==> fresh(pass) && pass.off == 0 && !pass.faulted
      ensures pass != null ==> session.log == old(session.log) + [Observed(Pass(pass.data, []))]
      ensures pass == null ==> session.log == old(session.log)
      ensures session.faulted == (old(session.faulted) || pass == null)
    {
      var ok: bool := *;
      session.NoteFault(!ok);
      if !ok {
        return null;
      }
      var observed: seq<byte> := *;
      var idle: nat := *;
      pass := new Source(observed, idle);
      session.log := session.log + [Observed(Pass(observed, []))];
    }

    /** The same for a pass that may read on behind the end. */
    method RewindForBody() returns (first: Source?, later: Source?)
      requires Held()
      modifies session`faulted, session`log
      ensures (first == null) == (later == null)
      ensures first != null ==> fresh(first) && fresh(later)
      ensures first != null ==> first.off == 0 && !first.faulted && later.off == 0 && !later.faulted
      ensures first != null ==> session.log == old(session.log) + [Observed(Pass(first.data, later.data))]
      ensures first == null ==> session.log == old(session.log)
      ensures session.faulted == (old(session.faulted) || first == null)
    {
      var ok: bool := *;
      session.NoteFault(!ok);
      if !ok {
        return null, null;
      }
      var upToEnd: seq<byte> := *;
      var behind: seq<byte> := *;
      var idle: nat := *;
      first := new Source(upToEnd, idle);
      later := new Source(behind, idle);
      session.log := session.log + [Observed(Pass(upToEnd, behind))];
    }
  }

  datatype OpenStatus = Found | NotExist | OpenFailed

  /** faulted tells whether any operation on the session, on one of its handles, or on a stream over one of its files
      has failed, or such a stream has read nothing or written short. */
  class FileSession {
    var files: map<string, seq<byte>>
    var temps: set<string>
    /** Every state the settled files have been in. */
    ghost var history: seq<map<string, seq<byte>>>
    ghost var log: seq<Event>
    ghost var faulted: bool

    constructor (files: map<string, seq<byte>>)
      ensures this.files == files && temps == {} && history == [files] && log == [] && !faulted
    {
      this.files, this.temps := files, {};
      this.history, this.log, this.faulted := [files], [], false;
    }

    ghost method NoteFault(failed: bool)
      modifies this`faulted
      ensures faulted == (old(faulted) || failed)
    {
      faulted := faulted || failed;
    }

    method OpenRead(path: string) returns (status: OpenStatus, content: Source?)
      modifies this`faulted
      ensures status.Found? <==> content != null
      ensures status.Found? ==> path in files && fresh(content) && content.data == files[path]
      ensures status.Found? ==> content.off == 0 && !content.faulted
      ensures status.NotExist? ==> path !in files
      ensures faulted == (old(faulted) || status.OpenFailed?)
    {
      status := if path in files then Found else NotExist;
      content := null;
      var refused: bool := *;
      if refused {
        status := OpenFailed;
      } else if path in files {
        var idle: nat := *;
        content := new Source(files[path], idle);
      }
      NoteFault(refused);
    }

    /** A source as it stands by now; what it holds is in the log. */
    method SourceByNow() returns (src: Source)
      modifies this`log
      ensures fresh(src) && src.off == 0 && !src.faulted && log == old(log) + [Observed(Pass(src.data, []))]
    {
      var now: seq<byte> := *;
      var idle: nat := *;
      src := new Source(now, idle);
      log := log + [Observed(Pass(now, []))];
    }

    /** Closing a file that was read. */
    method CloseRead() returns (ok: bool)
      modifies this`faulted
      ensures faulted == (old(faulted) || !ok)
    {
      ok := *;
      NoteFault(!ok);
    }

    method CreateTemp() returns (tmp: TempFile?)
      modifies this`temps, this`faulted, this`log
      ensures faulted == (old(faulted) || tmp == null)
      ensures tmp == null ==> temps == old(temps) && log == old(log)
      ensures tmp != null ==> fresh(tmp) && fresh(tmp.staged) && tmp.session == this && tmp.closes == 0
      ensures tmp != null ==> tmp.staged.data == [] && !tmp.staged.faulted && !tmp.staged.cut
      ensures tmp != null ==> tmp.path !in old(temps) && tmp.path !in files && temps == old(temps) + {tmp.path}
      ensures tmp != null ==> log == old(log) + [Created(tmp.path)]
    {
      var refused: bool := *;
      NoteFault(refused);
      if refused {
        return null;
      }
      var random: string := *;
      tmp := new TempFile(this, Unique(TEMP_PREFIX + random, temps + files.Keys));
      temps := temps + {tmp.path};
      log := log + [Created(tmp.path)];
    }

    method Remove(tmp: TempFile) returns (ok: bool)
      modifies this`temps, this`faulted
      ensures temps == if ok then old(temps) - {tmp.path} else old(temps)
      ensures faulted == (old(faulted) || !ok)
    {
      ok := *;
      if ok {
        temps := temps - {tmp.path};
      }
      NoteFault(!ok);
    }

    method Chmod(tmp: TempFile) returns (ok: bool)
      modifies this`faulted
      ensures faulted == (old(faulted) || !ok)
    {
      ok := *;
      NoteFault(!ok);
    }

    /** Puts the staging file in the place of path: at once, or not at all. */
    method Rename(tmp: TempFile, path: string) returns (ok: bool)
      modifies this
      ensures faulted == (old(faulted) || !ok)
      ensures !ok ==> files == old(files) && temps == old(temps) && history == old(history) && log == old(log)
      ensures ok ==> files == old(files)[path := tmp.staged.data] && temps == old(temps) - {tmp.path}
      ensures ok ==> history == old(history) + [files] && log == old(log) + [Renamed(path, tmp.staged.data)]
    {
      ok := *;
      if ok {
        files := files[path := tmp.staged.data];
        temps := temps - {tmp.path};
        history := history + [files];
        log := log + [Renamed(path, tmp.staged.data)];
      }
      NoteFault(!ok);
    }

    /** Another program may create, rewrite or delete any file at this point. */
    method Interference()
      modifies this`files, this`history
    {
      files := *;
      history := history + [files];
    }
  }

  /** Every handle, lock and staging file opened since has been let go of, in turn and exactly once, and a staging
      file stays behind only when something has failed. */
  twostate predicate Tidy(session: FileSession)
    reads session
  {
    && Settled(old(session.log), session.log)
    && (session.temps == old(session.temps) || session.faulted)
  }

  lemma TidyAgain(a: seq<Event>, b: seq<Event>, c: seq<Event>)
    requires Settled(a, b) && Settled(b, c)
    ensures Settled(a, c)
  {
    LeadsOn(a, b, c, NOTHING_OPEN, NOTHING_OPEN, NOTHING_OPEN);
  }
}
