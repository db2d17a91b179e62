/**
 * The reconciliation cycle: list, deduplicate, diff, enqueue, trash, download, until a pass changes
 * nothing. The source is a map from spelling to file; downloads succeed (their own steps are modelled
 * elsewhere), a task for a file the source does not have is skipped.
 */
module Cycle {
  import opened Basics
  import opened Tables

  datatype SourceFile = SourceFile(size: nat, mtime: int)

  type Source = map<string, SourceFile>

  // ---- Downloads ----

  function RowFor(rel: string, source: Source, norm: string -> string): FileRow
    requires rel in source
  {
    FileRow(rel, norm(rel), source[rel].size, source[rel].mtime)
  }

  function Processed(t: Task, source: Source): Task {
    if !Runnable(t) then t else t.(status := if t.rel in source then Done else Skipped)
  }

  function ProcessedAll(tasks: seq<Task>, source: Source): (r: seq<Task>)
    ensures |r| == |tasks| && forall i | 0 <= i < |r| :: r[i] == Processed(tasks[i], source)
  {
    seq(|tasks|, i requires 0 <= i < |tasks| => Processed(tasks[i], source))
  }

  /** How many runnable tasks the source has no file for: those a pass skips. */
  function CountMissing(tasks: seq<Task>, source: Source): (n: nat)
    ensures n == 0 <==> forall t | t in tasks && Runnable(t) :: t.rel in source
  {
    if tasks == [] then 0
    else
      var t := tasks[|tasks| - 1];
      assert tasks == tasks[..|tasks| - 1] + [t];
      CountMissing(tasks[..|tasks| - 1], source) + if Runnable(t) && t.rel !in source then 1 else 0
  }

  /** The index after every runnable task has been worked off. */
  function IndexAfter(files: seq<FileRow>, tasks: seq<Task>, source: Source, norm: string -> string): seq<FileRow> {
    if tasks == [] then files
    else
      var f := IndexAfter(files, tasks[..|tasks| - 1], source, norm);
      var t := tasks[|tasks| - 1];
      if Runnable(t) && t.rel in source then Upsert(f, RowFor(t.rel, source, norm)) else f
  }

  lemma NextTask(files: seq<FileRow>, queue: seq<Task>, i: nat, source: Source, norm: string -> string)
    requires i < |queue|
    ensures var t, f := queue[i], IndexAfter(files, queue[..i], source, norm);
            && IndexAfter(files, queue[..i + 1], source, norm)
               == (if Runnable(t) && t.rel in source then Upsert(f, RowFor(t.rel, source, norm)) else f)
            && CountMissing(queue[..i + 1], source)
               == CountMissing(queue[..i], source) + if Runnable(t) && t.rel !in source then 1 else 0
  {
    assert queue[..i + 1][..i] == queue[..i];
  }

  /** A path some runnable task downloads. */
  predicate Downloaded(tasks: seq<Task>, rel: string, source: Source) {
    rel in source && exists t | t in tasks :: Runnable(t) && t.rel == rel
  }

  lemma {:induction false} IndexAfterMembers(files: seq<FileRow>, tasks: seq<Task>, source: Source,
                                             norm: string -> string)
    requires UniqueRels(files)
    ensures UniqueRels(IndexAfter(files, tasks, source, norm))
    ensures forall f :: (f in IndexAfter(files, tasks, source, norm)
      <==> if Downloaded(tasks, f.rel, source) then f == RowFor(f.rel, source, norm) else f in files)
  {
    if tasks != [] {
      var init, t := tasks[..|tasks| - 1], tasks[|tasks| - 1];
      IndexAfterMembers(files, init, source, norm);
      assert tasks == init + [t];
      forall rel
        ensures Downloaded(tasks, rel, source)
                <==> Downloaded(init, rel, source) || (rel in source && Runnable(t) && t.rel == rel)
      {
        assert t in tasks;
      }
      if Runnable(t) && t.rel in source {
        UpsertMembers(IndexAfter(files, init, source, norm), RowFor(t.rel, source, norm));
      }
    }
  }

  // ---- One pass ----

  datatype Db = Db(files: seq<FileRow>, tasks: seq<Task>)

  datatype PassResult = PassResult(db: Db, enqueued: nat, moved: nat, skipped: nat)

  /** Everything one pass does once its listing has been loaded. */
  function Pass(db: Db, listing: seq<ClientRow>, source: Source, tol: int, cycle: nat,
                norm: string -> string): PassResult {
    var d := Dedup(listing);
    var tasks := Enqueued(db.tasks, d, db.files, tol, cycle);
    var kept := Listed(db.files, d);
    ListedShape(db.files, d);
    PassResult(Db(IndexAfter(kept, tasks, source, norm), ProcessedAll(tasks, source)),
               |tasks| - |db.tasks|, |db.files| - |kept|, CountMissing(tasks, source))
  }

  /** A listing that says what the source holds. */
  ghost predicate Honest(listing: seq<ClientRow>, source: Source, norm: string -> string) {
    forall c | c in listing :: c.rel in source && source[c.rel] == SourceFile(c.size, c.mtime) && c.key == norm(c.rel)
  }

  /** This cycle has skipped nothing that is listed. */
  predicate Settled(tasks: seq<Task>, d: seq<ClientRow>, cycle: nat) {
    forall t | t in tasks && t.status == Skipped && t.cycle == cycle :: !HasRel(d, t.rel)
  }

  ghost predicate WellKeyed(files: seq<FileRow>, norm: string -> string) {
    forall f | f in files :: f.key == norm(f.rel)
  }

  /** An index row that shares a listed file's key under another spelling and differs from it. */
  predicate StaleAt(files: seq<FileRow>, f: FileRow, c: ClientRow, tol: int) {
    f in files && f.key == c.key && f.rel != c.rel && Differs(f, c, tol)
  }

  /** Some row makes the listed file c stale. */
  predicate StaleFor(files: seq<FileRow>, c: ClientRow, tol: int) {
    exists f | f in files :: StaleAt(files, f, c, tol)
  }

  predicate Stale(files: seq<FileRow>, d: seq<ClientRow>, tol: int) {
    exists c | c in d :: StaleFor(files, c, tol)
  }

  /** The index once the tasks left over from before are worked off, without anything else of a pass. */
  function Worked(db: Db, source: Source, norm: string -> string): seq<FileRow> {
    IndexAfter(db.files, db.tasks, source, norm)
  }

  /** Some task left over from before downloads a file whose key is not listed. */
  predicate Strangers(db: Db, d: seq<ClientRow>, source: Source, norm: string -> string) {
    exists t | t in db.tasks :: Runnable(t) && t.rel in source && !ListsKey(d, norm(t.rel))
  }

  /** What every pass starts from. Any tasks may be left over. */
  ghost predicate Ready(db: Db, d: seq<ClientRow>, source: Source, cycle: nat, norm: string -> string) {
    && UniqueRels(db.files) && WellKeyed(db.files, norm)
    && UniqueKeys(d) && Honest(d, source, norm)
    && Settled(db.tasks, d, cycle)
  }

  /** A new cycle starts ready: its number is on no task yet, and the listing loaded is honest. */
  lemma NewCycleIsReady(db: Db, listing: seq<ClientRow>, source: Source, cycle: nat, norm: string -> string)
    requires UniqueRels(db.files) && WellKeyed(db.files, norm) && Honest(listing, source, norm)
    requires forall t | t in db.tasks :: t.cycle != cycle
    ensures Ready(db, Dedup(listing), source, cycle, norm)
  {
    DedupUnique(listing);
  }

  lemma NewTaskIsListed(db: Db, d: seq<ClientRow>, tol: int, cycle: nat, t: Task)
    requires t in Fresh(DiffOf(d, db.files, tol), db.tasks, cycle)
    ensures HasRel(d, t.rel)
  {
    var diff := DiffOf(d, db.files, tol);
    FreshRels(diff, db.tasks, cycle, t.rel);
    var c :| c in diff && c.rel == t.rel;
    DiffMembers(d, db.files, tol, c);
  }

  /** What is downloaded after enqueueing was left over from before or is listed. */
  lemma DownloadedIsListed(db: Db, d: seq<ClientRow>, source: Source, tol: int, cycle: nat, rel: string)
    requires Downloaded(Enqueued(db.tasks, d, db.files, tol, cycle), rel, source)
    ensures Downloaded(db.tasks, rel, source) || HasRel(d, rel)
  {
    var added := Fresh(DiffOf(d, db.files, tol), db.tasks, cycle);
    var t :| t in db.tasks + added && Runnable(t) && t.rel == rel;
    if t in added {
      NewTaskIsListed(db, d, tol, cycle, t);
    }
  }

  /** Tasks left over from before stay. */
  lemma LeftOverIsDownloaded(db: Db, d: seq<ClientRow>, source: Source, tol: int, cycle: nat, rel: string)
    requires Downloaded(db.tasks, rel, source)
    ensures Downloaded(Enqueued(db.tasks, d, db.files, tol, cycle), rel, source)
  {
    var t :| t in db.tasks && Runnable(t) && t.rel == rel;
    assert t in Enqueued(db.tasks, d, db.files, tol, cycle);
  }

  lemma SelectedIsDownloaded(db: Db, d: seq<ClientRow>, source: Source, tol: int, cycle: nat, norm: string -> string,
                             c: ClientRow)
    requires Ready(db, d, source, cycle, norm) && c in d && Selected(c, db.files, tol)
    ensures Downloaded(Enqueued(db.tasks, d, db.files, tol, cycle), c.rel, source)
  {
    var diff := DiffOf(d, db.files, tol);
    var added := Fresh(diff, db.tasks, cycle);
    DiffMembers(d, db.files, tol, c);
    FreshRels(diff, db.tasks, cycle, c.rel);
    if Blocked(db.tasks, c.rel, cycle) {
      var t :| t in db.tasks && Blocks(t, c.rel, cycle);
      assert HasRel(d, t.rel);
      assert t in db.tasks + added && Runnable(t) && t.rel in source;
    } else {
      var t :| t in added && t.rel == c.rel;
      FreshShape(diff, db.tasks, cycle);
      assert t in db.tasks + added && Runnable(t);
    }
  }

  /** After enqueueing, left-over tasks and selected listed files are downloaded, and nothing else. */
  lemma WhatIsDownloaded(db: Db, d: seq<ClientRow>, source: Source, tol: int, cycle: nat, norm: string -> string)
    requires Ready(db, d, source, cycle, norm)
    ensures var tasks := Enqueued(db.tasks, d, db.files, tol, cycle);
            && (forall rel | Downloaded(tasks, rel, source) :: Downloaded(db.tasks, rel, source) || HasRel(d, rel))
            && (forall rel | Downloaded(db.tasks, rel, source) :: Downloaded(tasks, rel, source))
            && (forall c | c in d && Selected(c, db.files, tol) :: Downloaded(tasks, c.rel, source))
  {
    forall rel | Downloaded(Enqueued(db.tasks, d, db.files, tol, cycle), rel, source)
      ensures Downloaded(db.tasks, rel, source) || HasRel(d, rel)
    {
      DownloadedIsListed(db, d, source, tol, cycle, rel);
    }
    forall rel | Downloaded(db.tasks, rel, source)
      ensures Downloaded(Enqueued(db.tasks, d, db.files, tol, cycle), rel, source)
    {
      LeftOverIsDownloaded(db, d, source, tol, cycle, rel);
    }
    forall c | c in d && Selected(c, db.files, tol)
      ensures Downloaded(Enqueued(db.tasks, d, db.files, tol, cycle), c.rel, source)
    {
      SelectedIsDownloaded(db, d, source, tol, cycle, norm, c);
    }
  }

  /** The rows of the index after the pass, and those after the left-over tasks alone. */
  lemma RowsAfterPass(db: Db, d: seq<ClientRow>, source: Source, tol: int, cycle: nat, norm: string -> string)
    requires Ready(db, d, source, cycle, norm)
    ensures var tasks := Enqueued(db.tasks, d, db.files, tol, cycle);
            var files := IndexAfter(Listed(db.files, d), tasks, source, norm);
            && UniqueRels(files)
            && (forall f :: (f in files <==> if Downloaded(tasks, f.rel, source) then f == RowFor(f.rel, source, norm)
                                             else f in db.files && ListsKey(d, f.key)))
            && (forall f :: (f in Worked(db, source, norm)
                             <==> if Downloaded(db.tasks, f.rel, source) then f == RowFor(f.rel, source, norm)
                                  else f in db.files))
  {
    ListedShape(db.files, d);
    forall f
      ensures f in Listed(db.files, d) <==> f in db.files && ListsKey(d, f.key)
    {
      ListedMembers(db.files, d, f);
    }
    IndexAfterMembers(Listed(db.files, d), Enqueued(db.tasks, d, db.files, tol, cycle), source, norm);
    IndexAfterMembers(db.files, db.tasks, source, norm);
  }

  /** The row of a listed spelling is the listed file's own. */
  lemma ListedSpelling(d: seq<ClientRow>, source: Source, norm: string -> string, c: ClientRow, rel: string)
    requires UniqueKeys(d) && Honest(d, source, norm) && c in d && HasRel(d, rel) && norm(rel) == c.key
    ensures rel == c.rel
  {
    var e :| e in d && e.rel == rel;
  }

  /** A row of the index after the pass, for a listed key, matches unless it is stale once the left-over tasks ran. */
  lemma RowAfterPass(db: Db, listing: seq<ClientRow>, source: Source, tol: int, cycle: nat, norm: string -> string,
                     c: ClientRow, f: FileRow)
    requires var d := Dedup(listing); Ready(db, d, source, cycle, norm) && tol >= 0 && c in d
    requires f.key == c.key && f in Pass(db, listing, source, tol, cycle, norm).db.files
    ensures Differs(f, c, tol) <==> StaleAt(Worked(db, source, norm), f, c, tol)
  {
    var d := Dedup(listing);
    var tasks := Enqueued(db.tasks, d, db.files, tol, cycle);
    WhatIsDownloaded(db, d, source, tol, cycle, norm);
    RowsAfterPass(db, d, source, tol, cycle, norm);
    if Downloaded(tasks, f.rel, source) && !Downloaded(db.tasks, f.rel, source) {
      ListedSpelling(d, source, norm, c, f.rel);
    }
  }

  /** A stale row survives the pass. */
  lemma StaleSurvives(db: Db, listing: seq<ClientRow>, source: Source, tol: int, cycle: nat, norm: string -> string,
                      c: ClientRow, f: FileRow)
    requires var d := Dedup(listing); Ready(db, d, source, cycle, norm) && tol >= 0 && c in d
    requires StaleAt(Worked(db, source, norm), f, c, tol)
    ensures StaleAt(Pass(db, listing, source, tol, cycle, norm).db.files, f, c, tol)
  {
    var d := Dedup(listing);
    var tasks := Enqueued(db.tasks, d, db.files, tol, cycle);
    WhatIsDownloaded(db, d, source, tol, cycle, norm);
    RowsAfterPass(db, d, source, tol, cycle, norm);
    if Downloaded(tasks, f.rel, source) && !Downloaded(db.tasks, f.rel, source) {
      ListedSpelling(d, source, norm, c, f.rel);
    }
  }

  /** After one pass every listed file has an index row of its key; another key is left exactly by a left-over task. */
  lemma KeysAfterPass(db: Db, listing: seq<ClientRow>, source: Source, tol: int, cycle: nat, norm: string -> string)
    requires Ready(db, Dedup(listing), source, cycle, norm) && tol >= 0
    ensures var files := Pass(db, listing, source, tol, cycle, norm).db.files;
            && (forall c | c in Dedup(listing) :: HasKey(files, c.key))
            && ((forall f | f in files :: ListsKey(Dedup(listing), f.key))
                <==> !Strangers(db, Dedup(listing), source, norm))
            && UniqueRels(files) && WellKeyed(files, norm)
  {
    var d := Dedup(listing);
    var tasks := Enqueued(db.tasks, d, db.files, tol, cycle);
    WhatIsDownloaded(db, d, source, tol, cycle, norm);
    RowsAfterPass(db, d, source, tol, cycle, norm);
    forall c | c in d
      ensures HasKey(Pass(db, listing, source, tol, cycle, norm).db.files, c.key)
    {
      KeyAfterPass(db, listing, source, tol, cycle, norm, c);
    }
    if t :| t in db.tasks && Runnable(t) && t.rel in source && !ListsKey(d, norm(t.rel)) {
      assert Downloaded(db.tasks, t.rel, source);
      assert RowFor(t.rel, source, norm) in Pass(db, listing, source, tol, cycle, norm).db.files;
    }
    forall f | f in Pass(db, listing, source, tol, cycle, norm).db.files && !ListsKey(d, f.key)
      ensures Strangers(db, d, source, norm)
    {
    }
  }

  lemma KeyAfterPass(db: Db, listing: seq<ClientRow>, source: Source, tol: int, cycle: nat, norm: string -> string,
                     c: ClientRow)
    requires Ready(db, Dedup(listing), source, cycle, norm) && c in Dedup(listing)
    ensures HasKey(Pass(db, listing, source, tol, cycle, norm).db.files, c.key)
  {
    var d := Dedup(listing);
    var tasks := Enqueued(db.tasks, d, db.files, tol, cycle);
    WhatIsDownloaded(db, d, source, tol, cycle, norm);
    RowsAfterPass(db, d, source, tol, cycle, norm);
    if Downloaded(tasks, c.rel, source) {
      assert RowFor(c.rel, source, norm) in Pass(db, listing, source, tol, cycle, norm).db.files;
    } else {
      var f :| f in db.files && f.key == c.key;
      if Downloaded(tasks, f.rel, source) {
        assert RowFor(f.rel, source, norm) in Pass(db, listing, source, tol, cycle, norm).db.files;
      } else {
        assert f in Pass(db, listing, source, tol, cycle, norm).db.files;
      }
    }
  }

  /** A pass leaves nothing runnable and stays ready. */
  lemma TasksAfterPass(db: Db, listing: seq<ClientRow>, source: Source, tol: int, cycle: nat, norm: string -> string)
    requires Ready(db, Dedup(listing), source, cycle, norm) && tol >= 0
    ensures var p := Pass(db, listing, source, tol, cycle, norm);
            Ready(p.db, Dedup(listing), source, cycle, norm) && Idle(p.db)
  {
    var d := Dedup(listing);
    KeysAfterPass(db, listing, source, tol, cycle, norm);
    var tasks := Enqueued(db.tasks, d, db.files, tol, cycle);
    FreshShape(DiffOf(d, db.files, tol), db.tasks, cycle);
    forall t | t in ProcessedAll(tasks, source) && t.status == Skipped && t.cycle == cycle
      ensures !HasRel(d, t.rel)
    {
      var i :| 0 <= i < |tasks| && ProcessedAll(tasks, source)[i] == t;
      if i < |db.tasks| && !Runnable(tasks[i]) {
        assert tasks[i] in db.tasks;
      }
    }
  }

  /** Nothing is left to be downloaded. */
  predicate Idle(db: Db) {
    forall t | t in db.tasks :: !Runnable(t)
  }

  lemma {:induction false} IdleAddsNothing(files: seq<FileRow>, tasks: seq<Task>, source: Source,
                                           norm: string -> string)
    requires forall t | t in tasks :: !Runnable(t)
    ensures IndexAfter(files, tasks, source, norm) == files
  {
    if tasks != [] {
      IdleAddsNothing(files, tasks[..|tasks| - 1], source, norm);
    }
  }

  /** Nothing is enqueued exactly when the diff selects nothing that is not blocked. */
  lemma NothingEnqueued(db: Db, d: seq<ClientRow>, tol: int, cycle: nat)
    ensures |Enqueued(db.tasks, d, db.files, tol, cycle)| == |db.tasks|
      <==> forall c | c in d && Selected(c, db.files, tol) :: Blocked(db.tasks, c.rel, cycle)
  {
    var diff := DiffOf(d, db.files, tol);
    var added := Fresh(diff, db.tasks, cycle);
    if added == [] {
      forall c | c in d && Selected(c, db.files, tol)
        ensures Blocked(db.tasks, c.rel, cycle)
      {
        DiffMembers(d, db.files, tol, c);
        FreshRels(diff, db.tasks, cycle, c.rel);
      }
    } else {
      var rel := added[0].rel;
      assert added[0] in added;
      FreshRels(diff, db.tasks, cycle, rel);
      var c :| c in diff && c.rel == rel;
      DiffMembers(d, db.files, tol, c);
    }
  }

  /**
   * A pass over an unchanged source starting after a pass moves exactly what left-over tasks brought in
   * unlisted, and enqueues nothing iff no row is stale.
   */
  lemma SecondPass(db: Db, listing: seq<ClientRow>, source: Source, tol: int, cycle: nat, norm: string -> string)
    requires Ready(db, Dedup(listing), source, cycle, norm) && tol >= 0
    ensures var p := Pass(db, listing, source, tol, cycle, norm);
            var q := Pass(p.db, listing, source, tol, cycle, norm);
            && (q.moved == 0 <==> !Strangers(db, Dedup(listing), source, norm))
            && (q.enqueued == 0 <==> !Stale(Worked(db, source, norm), Dedup(listing), tol))
            && (Stale(p.db.files, Dedup(listing), tol) <==> Stale(Worked(db, source, norm), Dedup(listing), tol))
  {
    var d := Dedup(listing);
    var p := Pass(db, listing, source, tol, cycle, norm);
    KeysAfterPass(db, listing, source, tol, cycle, norm);
    ListedShape(p.db.files, d);
    NothingEnqueued(p.db, d, tol, cycle);
    forall c | c in d
      ensures !Blocked(p.db.tasks, c.rel, cycle)
      ensures Selected(c, p.db.files, tol) <==> StaleFor(Worked(db, source, norm), c, tol)
      ensures StaleFor(p.db.files, c, tol) <==> StaleFor(Worked(db, source, norm), c, tol)
    {
      OneFile(db, listing, source, tol, cycle, norm, c);
    }
  }

  lemma NotBlockedWhenIdle(db: Db, d: seq<ClientRow>, source: Source, cycle: nat, norm: string -> string, c: ClientRow)
    requires Ready(db, d, source, cycle, norm) && c in d && Idle(db)
    ensures !Blocked(db.tasks, c.rel, cycle)
  {
  }

  lemma OneFile(db: Db, listing: seq<ClientRow>, source: Source, tol: int, cycle: nat, norm: string -> string,
                c: ClientRow)
    requires Ready(db, Dedup(listing), source, cycle, norm) && tol >= 0 && c in Dedup(listing)
    ensures var p := Pass(db, listing, source, tol, cycle, norm).db;
            && !Blocked(p.tasks, c.rel, cycle)
            && (Selected(c, p.files, tol) <==> StaleFor(Worked(db, source, norm), c, tol))
            && (StaleFor(p.files, c, tol) <==> StaleFor(Worked(db, source, norm), c, tol))
  {
    var p := Pass(db, listing, source, tol, cycle, norm).db;
    var w := Worked(db, source, norm);
    KeysAfterPass(db, listing, source, tol, cycle, norm);
    TasksAfterPass(db, listing, source, tol, cycle, norm);
    NotBlockedWhenIdle(p, Dedup(listing), source, cycle, norm, c);
    forall f | f in p.files && f.key == c.key
      ensures Differs(f, c, tol) <==> StaleAt(w, f, c, tol)
    {
      RowAfterPass(db, listing, source, tol, cycle, norm, c, f);
    }
    if f :| f in w && StaleAt(w, f, c, tol) {
      StaleSurvives(db, listing, source, tol, cycle, norm, c, f);
    }
  }

  /**
   * A stale row is never repaired: while the source does not change, every later pass enqueues
   * something again, without end; and a task left over for an unlisted spelling can bring one in.
   */
  lemma {:induction false} StaleNeverConverges(db: Db, listing: seq<ClientRow>, source: Source, tol: int, cycle: nat,
                                               norm: string -> string, n: nat)
    requires Ready(db, Dedup(listing), source, cycle, norm) && tol >= 0
    ensures var p := Passes(db, listing, source, tol, cycle, norm, n + 1);
            && Ready(p, Dedup(listing), source, cycle, norm)
            && Idle(p)
            && (Stale(p.files, Dedup(listing), tol) <==> Stale(Worked(db, source, norm), Dedup(listing), tol))
            && (Pass(p, listing, source, tol, cycle, norm).enqueued > 0
                <==> Stale(Worked(db, source, norm), Dedup(listing), tol))
  {
    var p := Passes(db, listing, source, tol, cycle, norm, n);
    if n > 0 {
      StaleNeverConverges(db, listing, source, tol, cycle, norm, n - 1);
      IdleAddsNothing(p.files, p.tasks, source, norm);
    }
    TasksAfterPass(p, listing, source, tol, cycle, norm);
    SecondPass(p, listing, source, tol, cycle, norm);
  }

  /** The state after n passes over the same listing. */
  function Passes(db: Db, listing: seq<ClientRow>, source: Source, tol: int, cycle: nat, norm: string -> string,
                  n: nat): Db {
    if n == 0 then db
    else Pass(Passes(db, listing, source, tol, cycle, norm, n - 1), listing, source, tol, cycle, norm).db
  }

  // ---- The pass loop ----

  /** A pass with nothing to do ends the loop. */
  predicate Quiet(p: PassResult) {
    p.enqueued == 0 && p.moved == 0
  }

  /** The pass with a given number on a given state; None when its listing fails. */
  type Passer = (nat, Db) -> Option<PassResult>

  function PassAt(listings: nat -> Option<seq<ClientRow>>, source: Source, tol: int, cycle: nat,
                  norm: string -> string): Passer {
    (n: nat, db: Db) =>
      match listings(n)
      case None => None
      case Some(l) => Some(Pass(db, l, source, tol, cycle, norm))
  }

  /** How a cycle ended: the last pass begun, whether its listing failed, and the tasks skipped in all passes. */
  datatype Outcome = Outcome(db: Db, passes: nat, failed: bool, skipped: nat)

  /** The loop from pass n on. A failed listing ends the cycle before anything is enqueued or trashed. */
  function CycleFrom(db: Db, n: nat, maxPasses: nat, pass: Passer): Outcome
    requires n <= maxPasses
    decreases maxPasses - n
  {
    match pass(n, db)
    case None => Outcome(db, n, true, 0)
    case Some(p) =>
      if Quiet(p) || n == maxPasses then Outcome(p.db, n, false, p.skipped)
      else Later(CycleFrom(p.db, n + 1, maxPasses, pass), p.skipped)
  }

  /** The outcome, counting the tasks skipped in earlier passes too. */
  function Later(o: Outcome, skipped: nat): Outcome {
    o.(skipped := skipped + o.skipped)
  }

  /** The passes `first` up to but not including `end`. */
  function PassesOver(db: Db, first: nat, end: nat, pass: Passer): Option<Db>
    requires first <= end
    decreases end - first
  {
    if first == end then Some(db)
    else
      match pass(first, db)
      case None => None
      case Some(p) => PassesOver(p.db, first + 1, end, pass)
  }

  /** How the cycle from pass n on ended. */
  predicate EndedBy(o: Outcome, db: Db, n: nat, maxPasses: nat, pass: Passer) {
    && n <= o.passes <= maxPasses
    && (o.failed ==> pass(o.passes, o.db).None? && PassesOver(db, n, o.passes, pass) == Some(o.db))
    && (!o.failed ==> PassesOver(db, n, o.passes + 1, pass) == Some(o.db))
  }

  lemma {:induction false} HowItEnded(db: Db, n: nat, maxPasses: nat, pass: Passer)
    requires n <= maxPasses
    ensures EndedBy(CycleFrom(db, n, maxPasses, pass), db, n, maxPasses, pass)
    decreases maxPasses - n
  {
    var r := pass(n, db);
    if r.Some? && !Quiet(r.value) && n != maxPasses {
      HowItEnded(r.value.db, n + 1, maxPasses, pass);
    } else if r.Some? {
      assert PassesOver(r.value.db, n + 1, n + 1, pass) == Some(r.value.db);
    }
  }

  /**
   * A cycle fails exactly by the listing of its last pass, and then index and tasks are what the passes
   * before it left: without a complete listing nothing is enqueued and nothing is trashed.
   */
  lemma FailedListingChangesNothing(db: Db, maxPasses: nat, listings: nat -> Option<seq<ClientRow>>,
                                    source: Source, tol: int, cycle: nat, norm: string -> string)
    requires maxPasses >= 1
    ensures var pass := PassAt(listings, source, tol, cycle, norm);
            var o := CycleFrom(db, 1, maxPasses, pass);
            && 1 <= o.passes <= maxPasses && (o.failed <==> listings(o.passes).None?)
            && (Reported(o) == FAILED <==> listings(o.passes).None?)
            && PassesOver(db, 1, if o.failed then o.passes else o.passes + 1, pass) == Some(o.db)
  {
    var pass := PassAt(listings, source, tol, cycle, norm);
    HowItEnded(db, 1, maxPasses, pass);
    var o := CycleFrom(db, 1, maxPasses, pass);
    if !o.failed {
      AllListed(db, 1, o.passes + 1, listings, source, tol, cycle, norm);
    }
  }

  /** Passes that run through have their listings. */
  lemma {:induction false} AllListed(db: Db, first: nat, end: nat, listings: nat -> Option<seq<ClientRow>>,
                                     source: Source, tol: int, cycle: nat, norm: string -> string)
    requires first < end && PassesOver(db, first, end, PassAt(listings, source, tol, cycle, norm)).Some?
    ensures listings(end - 1).Some?
    decreases end - first
  {
    if first + 1 < end {
      AllListed(Pass(db, listings(first).value, source, tol, cycle, norm).db, first + 1, end, listings, source, tol,
                cycle, norm);
    }
  }

  /** Passes that always find something to do use up the passes allowed. */
  lemma {:induction false} BusyUsesAllPasses(db: Db, n: nat, maxPasses: nat, pass: Passer, busy: Db -> bool)
    requires n <= maxPasses && busy(db)
    requires forall i: nat, d | busy(d) :: pass(i, d).Some? && !Quiet(pass(i, d).value) && busy(pass(i, d).value.db)
    ensures var o := CycleFrom(db, n, maxPasses, pass); o.passes == maxPasses && !o.failed && busy(o.db)
    decreases maxPasses - n
  {
    assert pass(n, db).Some?;
    if n != maxPasses {
      BusyUsesAllPasses(pass(n, db).value.db, n + 1, maxPasses, pass, busy);
    }
  }

  /** What every pass keeps and what every pass leaves, over a whole cycle that skips nothing. */
  lemma {:induction false} CycleKeeps(db: Db, n: nat, maxPasses: nat, pass: Passer, kept: Db -> bool, left: Db -> bool)
    requires n <= maxPasses && kept(db)
    requires forall i: nat, d | kept(d) ::
               && pass(i, d).Some? && kept(pass(i, d).value.db) && left(pass(i, d).value.db)
               && pass(i, d).value.skipped == 0
    ensures var o := CycleFrom(db, n, maxPasses, pass); !o.failed && left(o.db) && o.skipped == 0
    decreases maxPasses - n
  {
    var p := pass(n, db).value;
    if !Quiet(p) && n != maxPasses {
      CycleKeeps(p.db, n + 1, maxPasses, pass, kept, left);
    }
  }

  /** A row with the listed file's size, and with its time up to the tolerance. */
  predicate Agrees(f: FileRow, c: ClientRow, tol: int) {
    f.size == c.size && -tol <= f.mtime - c.mtime <= tol
  }

  /** The listed file has rows of its key, and all of them agree with it. */
  predicate FileInStep(files: seq<FileRow>, c: ClientRow, tol: int) {
    (exists f | f in files :: f.key == c.key) && forall f | f in files && f.key == c.key :: Agrees(f, c, tol)
  }

  /** Every listed file is in step, and no other key is indexed. */
  predicate InStep(files: seq<FileRow>, d: seq<ClientRow>, tol: int) {
    (forall c | c in d :: FileInStep(files, c, tol)) && forall f | f in files :: ListsKey(d, f.key)
  }

  lemma InStepFor(files: seq<FileRow>, c: ClientRow, tol: int)
    ensures FileInStep(files, c, tol) <==> !Selected(c, files, tol)
  {
  }

  lemma InStepIffDiffEmpty(files: seq<FileRow>, d: seq<ClientRow>, tol: int)
    requires forall f | f in files :: ListsKey(d, f.key)
    ensures InStep(files, d, tol) <==> DiffOf(d, files, tol) == []
  {
    forall c | c in d
      ensures FileInStep(files, c, tol) <==> c !in DiffOf(d, files, tol)
    {
      InStepFor(files, c, tol);
      DiffMembers(d, files, tol, c);
    }
    if DiffOf(d, files, tol) != [] {
      DiffMembers(d, files, tol, DiffOf(d, files, tol)[0]);
    }
  }

  /** The index is in step after a pass exactly when the left-over tasks bring in no stale row and no unlisted key. */
  lemma InStepAfterPass(db: Db, listing: seq<ClientRow>, source: Source, tol: int, cycle: nat, norm: string -> string)
    requires Ready(db, Dedup(listing), source, cycle, norm) && tol >= 0
    ensures InStep(Pass(db, listing, source, tol, cycle, norm).db.files, Dedup(listing), tol)
            <==> !Stale(Worked(db, source, norm), Dedup(listing), tol) && !Strangers(db, Dedup(listing), source, norm)
  {
    var d := Dedup(listing);
    KeysAfterPass(db, listing, source, tol, cycle, norm);
    forall c | c in d
      ensures FileInStep(Pass(db, listing, source, tol, cycle, norm).db.files, c, tol)
        <==> !StaleFor(Worked(db, source, norm), c, tol)
    {
      OneFile(db, listing, source, tol, cycle, norm, c);
      InStepFor(Pass(db, listing, source, tol, cycle, norm).db.files, c, tol);
    }
  }

  /** A pass over a state with nothing left over and a stale row has something to do, and leaves such a state. */
  lemma StalePass(db: Db, listing: seq<ClientRow>, source: Source, tol: int, cycle: nat, norm: string -> string)
    requires Ready(db, Dedup(listing), source, cycle, norm) && tol >= 0 && Idle(db)
             && Stale(db.files, Dedup(listing), tol)
    ensures var p := Pass(db, listing, source, tol, cycle, norm);
            && !Quiet(p) && Ready(p.db, Dedup(listing), source, cycle, norm) && Idle(p.db)
            && Stale(p.db.files, Dedup(listing), tol)
  {
    var d := Dedup(listing);
    var c :| c in d && StaleFor(db.files, c, tol);
    var f :| f in db.files && StaleAt(db.files, f, c, tol);
    NothingEnqueued(db, d, tol, cycle);
    NotBlockedWhenIdle(db, d, source, cycle, norm, c);
    assert Selected(c, db.files, tol);
    TasksAfterPass(db, listing, source, tol, cycle, norm);
    SecondPass(db, listing, source, tol, cycle, norm);
    IdleAddsNothing(db.files, db.tasks, source, norm);
  }

  /** From a state with nothing left over and a stale row, the cycle uses every pass and ends with one. */
  lemma StaleUsesAllPasses(db: Db, n: nat, listing: seq<ClientRow>, maxPasses: nat,
                           listings: nat -> Option<seq<ClientRow>>,
                           source: Source, tol: int, cycle: nat, norm: string -> string)
    requires Ready(db, Dedup(listing), source, cycle, norm) && tol >= 0 && n <= maxPasses && Idle(db)
    requires (forall i :: listings(i) == Some(listing)) && Stale(db.files, Dedup(listing), tol)
    ensures CycleFrom(db, n, maxPasses, PassAt(listings, source, tol, cycle, norm)).passes == maxPasses
  {
    var pass := PassAt(listings, source, tol, cycle, norm);
    var busy := (d: Db) =>
      Ready(d, Dedup(listing), source, cycle, norm) && Idle(d) && Stale(d.files, Dedup(listing), tol);
    forall i: nat, d | busy(d)
      ensures pass(i, d).Some? && !Quiet(pass(i, d).value) && busy(pass(i, d).value.db)
    {
      StalePass(d, listing, source, tol, cycle, norm);
    }
    BusyUsesAllPasses(db, n, maxPasses, pass, busy);
  }

  /** A pass and the next one. */
  lemma TwoPasses(db: Db, n: nat, maxPasses: nat, pass: Passer, p: PassResult, q: PassResult)
    requires n < maxPasses && pass(n, db) == Some(p) && pass(n + 1, p.db) == Some(q)
    ensures Quiet(p) ==> CycleFrom(db, n, maxPasses, pass).passes == n
    ensures !Quiet(p) && Quiet(q) ==> CycleFrom(db, n, maxPasses, pass).passes == n + 1
    ensures !Quiet(p) ==> CycleFrom(db, n, maxPasses, pass).passes == CycleFrom(p.db, n + 1, maxPasses, pass).passes
  {
  }

  /** Some task left over from before is for a file the source does not have. */
  predicate LacksFiles(db: Db, source: Source) {
    exists t | t in db.tasks :: Runnable(t) && t.rel !in source
  }

  /** A pass over a state with nothing left over: it keeps that, skips nothing, and is in step unless a row is stale. */
  lemma SettledPass(db: Db, listing: seq<ClientRow>, source: Source, tol: int, cycle: nat, norm: string -> string)
    requires Ready(db, Dedup(listing), source, cycle, norm) && tol >= 0 && Idle(db)
    ensures var p := Pass(db, listing, source, tol, cycle, norm);
            && Ready(p.db, Dedup(listing), source, cycle, norm) && Idle(p.db) && p.skipped == 0
            && (Stale(p.db.files, Dedup(listing), tol) <==> Stale(db.files, Dedup(listing), tol))
            && (InStep(p.db.files, Dedup(listing), tol) <==> !Stale(db.files, Dedup(listing), tol))
  {
    IdleAddsNothing(db.files, db.tasks, source, norm);
    SkippedIsLeftOver(db, listing, source, tol, cycle, norm);
    TasksAfterPass(db, listing, source, tol, cycle, norm);
    SecondPass(db, listing, source, tol, cycle, norm);
    InStepAfterPass(db, listing, source, tol, cycle, norm);
  }

  /** How a cycle over an unchanged source ends from a state with nothing left over, from whatever pass on. */
  lemma SettledCycle(db: Db, n: nat, listing: seq<ClientRow>, maxPasses: nat, listings: nat -> Option<seq<ClientRow>>,
                     source: Source, tol: int, cycle: nat, norm: string -> string)
    requires Ready(db, Dedup(listing), source, cycle, norm) && tol >= 0 && n <= maxPasses && Idle(db)
    requires forall i :: listings(i) == Some(listing)
    ensures var o := CycleFrom(db, n, maxPasses, PassAt(listings, source, tol, cycle, norm));
            && !o.failed && Idle(o.db) && o.skipped == 0
            && (InStep(o.db.files, Dedup(listing), tol) <==> !Stale(db.files, Dedup(listing), tol))
  {
    var pass := PassAt(listings, source, tol, cycle, norm);
    var stale := Stale(db.files, Dedup(listing), tol);
    var kept := (d: Db) =>
      Ready(d, Dedup(listing), source, cycle, norm) && Idle(d) && Stale(d.files, Dedup(listing), tol) == stale;
    var left := (d: Db) => Idle(d) && InStep(d.files, Dedup(listing), tol) == !stale;
    forall i: nat, d | kept(d)
      ensures && pass(i, d).Some? && kept(pass(i, d).value.db) && left(pass(i, d).value.db)
              && pass(i, d).value.skipped == 0
    {
      SettledPass(d, listing, source, tol, cycle, norm);
    }
    CycleKeeps(db, n, maxPasses, pass, kept, left);
  }

  /**
   * Once the tasks left over from before have been worked off, no index row shares a listed key under
   * another spelling and differs, and no pass is missing that would trash what they bring in unlisted.
   */
  ghost predicate Converges(db: Db, listing: seq<ClientRow>, maxPasses: nat, source: Source, tol: int, cycle: nat,
                            norm: string -> string) {
    && !Stale(Worked(db, source, norm), Dedup(listing), tol)
    && !(Strangers(db, Dedup(listing), source, norm)
         && (maxPasses == 1 || Quiet(Pass(db, listing, source, tol, cycle, norm))))
  }

  /** How a cycle over an unchanged source ends from any state, whatever tasks are left over from before. */
  lemma CycleEnds(db: Db, listing: seq<ClientRow>, maxPasses: nat, listings: nat -> Option<seq<ClientRow>>,
                  source: Source, tol: int, cycle: nat, norm: string -> string)
    requires Ready(db, Dedup(listing), source, cycle, norm) && tol >= 0 && maxPasses >= 1
    requires forall i :: listings(i) == Some(listing)
    ensures var o := CycleFrom(db, 1, maxPasses, PassAt(listings, source, tol, cycle, norm));
            && !o.failed && Idle(o.db) && (o.skipped > 0 <==> LacksFiles(db, source))
            && (InStep(o.db.files, Dedup(listing), tol)
                <==> Converges(db, listing, maxPasses, source, tol, cycle, norm))
  {
    var pass := PassAt(listings, source, tol, cycle, norm);
    var p := Pass(db, listing, source, tol, cycle, norm);
    SkippedIsLeftOver(db, listing, source, tol, cycle, norm);
    TasksAfterPass(db, listing, source, tol, cycle, norm);
    InStepAfterPass(db, listing, source, tol, cycle, norm);
    assert pass(1, db) == Some(p);
    if !Quiet(p) && maxPasses > 1 {
      SecondPass(db, listing, source, tol, cycle, norm);
      SettledCycle(p.db, 2, listing, maxPasses, listings, source, tol, cycle, norm);
    }
  }

  /**
   * When it ends: at once if the first pass finds nothing to do; otherwise with the last pass allowed if a
   * row stays stale, with pass three if pass two trashes what left-over tasks brought in, and with pass two
   * if neither.
   */
  lemma PassesUsed(db: Db, listing: seq<ClientRow>, maxPasses: nat, listings: nat -> Option<seq<ClientRow>>,
                        source: Source, tol: int, cycle: nat, norm: string -> string)
    requires Ready(db, Dedup(listing), source, cycle, norm) && tol >= 0 && maxPasses >= 2
    requires forall i :: listings(i) == Some(listing)
    ensures CycleFrom(db, 1, maxPasses, PassAt(listings, source, tol, cycle, norm)).passes
      == if Quiet(Pass(db, listing, source, tol, cycle, norm)) then 1
         else if Stale(Worked(db, source, norm), Dedup(listing), tol) then maxPasses
         else if Strangers(db, Dedup(listing), source, norm) then Min(3, maxPasses)
         else 2
  {
    var pass := PassAt(listings, source, tol, cycle, norm);
    var p := Pass(db, listing, source, tol, cycle, norm);
    var q := Pass(p.db, listing, source, tol, cycle, norm);
    SecondPass(db, listing, source, tol, cycle, norm);
    TasksAfterPass(db, listing, source, tol, cycle, norm);
    TwoPasses(db, 1, maxPasses, pass, p, q);
    if !Quiet(p) {
      if Stale(Worked(db, source, norm), Dedup(listing), tol) {
        StaleUsesAllPasses(p.db, 2, listing, maxPasses, listings, source, tol, cycle, norm);
      } else if maxPasses > 2 {
        ThirdIsQuiet(p.db, listing, source, tol, cycle, norm);
        TwoPasses(p.db, 2, maxPasses, pass, q, Pass(q.db, listing, source, tol, cycle, norm));
      }
    }
  }

  /** Behind a pass over a state with nothing left over and no stale row, there is nothing to do. */
  lemma ThirdIsQuiet(db: Db, listing: seq<ClientRow>, source: Source, tol: int, cycle: nat, norm: string -> string)
    requires Ready(db, Dedup(listing), source, cycle, norm) && tol >= 0 && Idle(db)
    requires !Stale(db.files, Dedup(listing), tol)
    ensures Quiet(Pass(Pass(db, listing, source, tol, cycle, norm).db, listing, source, tol, cycle, norm))
  {
    IdleAddsNothing(db.files, db.tasks, source, norm);
    SecondPass(db, listing, source, tol, cycle, norm);
  }

  /** A concrete case: "A" was indexed, the source respelled it "a" and changed it, and no pass ends the loop. */
  lemma RespelledFileExample()
    ensures var norm := (r: string) => "a";
            var db := Db([FileRow("A", "a", 1, 0)], []);
            var listing := [ClientRow("a", "a", 2, 0)];
            var source := map["a" := SourceFile(2, 0)];
            Stale(Worked(db, source, norm), Dedup(listing), 0) && Ready(db, Dedup(listing), source, 1, norm)
  {
    var c, f := ClientRow("a", "a", 2, 0), FileRow("A", "a", 1, 0);
    DedupOne(c);
    StaleOne(f, c, 0);
  }

  /**
   * A concrete case: an aborted cycle left a task for "x", and the masks now exclude it. The first pass
   * downloads it, finds nothing else to do, and the cycle reports OK with a row that nothing listed.
   */
  lemma LeftOverExample(maxPasses: nat)
    requires maxPasses >= 1
    ensures var norm := (r: string) => r;
            var db := Db([], [Task(1, "x", 1, Pending, 0, 1)]);
            var source := map["x" := SourceFile(1, 0)];
            var o := CycleFrom(db, 1, maxPasses, PassAt(n => Some([]), source, 0, 2, norm));
            && Ready(db, [], source, 2, norm) && Strangers(db, [], source, norm)
            && o.passes == 1 && Reported(o) == OK && o.db.files == [FileRow("x", "x", 1, 0)]
            && !InStep(o.db.files, [], 0)
  {
    var norm := (r: string) => r;
    var t := Task(1, "x", 1, Pending, 0, 1);
    var source := map["x" := SourceFile(1, 0)];
    var db := Db([], [t]);
    var listings := (n: nat) => Some([]);
    assert [t][..0] == [] && t in [t] && db.tasks + [] == [t];
    assert IndexAfter([], [t], source, norm) == [RowFor("x", source, norm)];
    var p := Pass(db, [], source, 0, 2, norm);
    assert Quiet(p) && PassAt(listings, source, 0, 2, norm)(1, db) == Some(p);
  }

  lemma DedupOne(c: ClientRow)
    ensures Dedup([c]) == [c]
  {
    assert [c][..0] == [];
  }

  lemma StaleOne(f: FileRow, c: ClientRow, tol: int)
    requires f.key == c.key && f.rel != c.rel && Differs(f, c, tol)
    ensures Stale([f], [c], tol)
  {
    assert f in [f] && c in [c];
    assert StaleAt([f], f, c, tol);
  }

  // ---- The reported status ----

  datatype CycleStatus = OK | PARTIAL | FAILED

  /**
   * The status of a cycle that was not interrupted. It looks at the tasks still runnable and the tasks
   * skipped in any of its passes, and not at the index.
   */
  function Reported(o: Outcome): (r: CycleStatus)
    ensures r == FAILED <==> o.failed
    ensures r == OK <==> && !o.failed && o.skipped == 0
                         && forall t | t in o.db.tasks :: t.status != Pending && t.status != InProgress
  {
    if o.failed then FAILED
    else if o.skipped > 0 || exists t | t in o.db.tasks :: Runnable(t) then PARTIAL
    else OK
  }

  /** The new tasks of a pass are for listed files, so what it skips was left over from before. */
  lemma SkippedIsLeftOver(db: Db, listing: seq<ClientRow>, source: Source, tol: int, cycle: nat, norm: string -> string)
    requires Ready(db, Dedup(listing), source, cycle, norm)
    ensures Pass(db, listing, source, tol, cycle, norm).skipped == 0
      <==> forall t | t in db.tasks && Runnable(t) :: t.rel in source
  {
    var d := Dedup(listing);
    var added := Fresh(DiffOf(d, db.files, tol), db.tasks, cycle);
    forall t | t in added
      ensures t.rel in source
    {
      NewTaskIsListed(db, d, tol, cycle, t);
    }
  }

  /**
   * What a cycle over an unchanged source reports: OK if and only if the source has a file for every
   * task left over from before. Whether it has converged makes no difference.
   */
  lemma ReportedOKIff(db: Db, listing: seq<ClientRow>, maxPasses: nat, listings: nat -> Option<seq<ClientRow>>,
                      source: Source, tol: int, cycle: nat, norm: string -> string)
    requires Ready(db, Dedup(listing), source, cycle, norm) && tol >= 0 && maxPasses >= 1
    requires forall i :: listings(i) == Some(listing)
    ensures var o := CycleFrom(db, 1, maxPasses, PassAt(listings, source, tol, cycle, norm));
            && (Reported(o) == OK <==> forall t | t in db.tasks && Runnable(t) :: t.rel in source)
            && (InStep(o.db.files, Dedup(listing), tol)
                <==> Converges(db, listing, maxPasses, source, tol, cycle, norm))
  {
    CycleEnds(db, listing, maxPasses, listings, source, tol, cycle, norm);
  }

  // ---- What becomes of the tasks ----

  /** Where in the table the tasks of this status are. */
  function WithStatus(tasks: seq<Task>, st: Status): set<nat> {
    set i: nat | i < |tasks| && tasks[i].status == st
  }

  lemma LastStatus(tasks: seq<Task>, st: Status)
    requires tasks != []
    ensures |WithStatus(tasks, st)|
            == |WithStatus(tasks[..|tasks| - 1], st)| + if tasks[|tasks| - 1].status == st then 1 else 0
  {
    var n := |tasks| - 1;
    assert WithStatus(tasks, st) == WithStatus(tasks[..n], st) + if tasks[n].status == st then {n} else {};
  }

  /** The queue skips exactly the tasks it has no file for, and counts them. */
  lemma {:induction false} SkippedAreMissing(tasks: seq<Task>, source: Source)
    ensures |WithStatus(ProcessedAll(tasks, source), Skipped)|
            == |WithStatus(tasks, Skipped)| + CountMissing(tasks, source)
  {
    if tasks != [] {
      var init := tasks[..|tasks| - 1];
      SkippedAreMissing(init, source);
      assert ProcessedAll(tasks, source)[..|init|] == ProcessedAll(init, source);
      LastStatus(ProcessedAll(tasks, source), Skipped);
      LastStatus(tasks, Skipped);
    }
  }

  /** A task once a listed pass has worked it off: done if the source has its file, skipped if not; others stay. */
  predicate Decided(t: Task, u: Task, listed: bool, source: Source) {
    u == if listed && (t.status == Pending || t.status == InProgress)
         then t.(status := if t.rel in source then Done else Skipped) else t
  }

  lemma PassDecides(db: Db, listing: seq<ClientRow>, source: Source, tol: int, cycle: nat, norm: string -> string)
    ensures var p := Pass(db, listing, source, tol, cycle, norm);
            && |WithStatus(p.db.tasks, Skipped)| == |WithStatus(db.tasks, Skipped)| + p.skipped
            && |db.tasks| <= |p.db.tasks| && Idle(p.db)
            && forall i | 0 <= i < |db.tasks| :: Decided(db.tasks[i], p.db.tasks[i], true, source)
  {
    var diff := DiffOf(Dedup(listing), db.files, tol);
    var tasks := db.tasks + Fresh(diff, db.tasks, cycle);
    FreshShape(diff, db.tasks, cycle);
    SkippedAreMissing(tasks, source);
    assert WithStatus(tasks, Skipped) == WithStatus(db.tasks, Skipped);
  }

  /**
   * What a whole cycle decides, whatever its listings say and wherever one fails. If the first one loads, every
   * task left over is done or skipped, by whether the source has its file; the cycle counts exactly the tasks
   * it has skipped; and it reports OK exactly if no listing failed, it has skipped none and none is left.
   */
  lemma {:induction false} WhatACycleDecides(db: Db, n: nat, maxPasses: nat, listings: nat -> Option<seq<ClientRow>>,
                                             source: Source, tol: int, cycle: nat, norm: string -> string)
    requires n <= maxPasses
    ensures var o := CycleFrom(db, n, maxPasses, PassAt(listings, source, tol, cycle, norm));
            && |WithStatus(o.db.tasks, Skipped)| == |WithStatus(db.tasks, Skipped)| + o.skipped
            && |db.tasks| <= |o.db.tasks|
            && (forall i | 0 <= i < |db.tasks| :: Decided(db.tasks[i], o.db.tasks[i], listings(n).Some?, source))
            && (Reported(o) == OK
                <==> && !o.failed && |WithStatus(o.db.tasks, Skipped)| == |WithStatus(db.tasks, Skipped)|
                     && forall t | t in o.db.tasks :: t.status != Pending && t.status != InProgress)
            && (Reported(o) == FAILED <==> o.failed)
    decreases maxPasses - n
  {
    var pass := PassAt(listings, source, tol, cycle, norm);
    var o := CycleFrom(db, n, maxPasses, pass);
    if listings(n).Some? {
      var p := Pass(db, listings(n).value, source, tol, cycle, norm);
      PassDecides(db, listings(n).value, source, tol, cycle, norm);
      if !Quiet(p) && n != maxPasses {
        WhatACycleDecides(p.db, n + 1, maxPasses, listings, source, tol, cycle, norm);
      }
    }
  }

  // ---- The server's methods ----

  class Server {
    const norm: string -> string
    var files: seq<FileRow>
    var clientFiles: seq<ClientRow>
    var tasks: seq<Task>

    ghost function Store(): Db
      reads this
    {
      Db(files, tasks)
    }

    constructor (norm: string -> string, files: seq<FileRow>, tasks: seq<Task>)
      ensures this.norm == norm && Store() == Db(files, tasks) && clientFiles == []
    {
      this.norm, this.files, this.tasks, clientFiles := norm, files, tasks, [];
    }

    /** CountNewChanged: listed files of new keys, and differing join rows; together they are what the diff selects. */
    method CountNewChanged(tol: int) returns (newCount: nat, changedCount: nat)
      ensures newCount == |NewFiles(clientFiles, files)|
      ensures newCount + changedCount == |DiffOf(clientFiles, files, tol)|
    {
      newCount, changedCount := 0, 0;
      for i := 0 to |clientFiles|
        invariant newCount == |NewFiles(clientFiles[..i], files)|
        invariant newCount + changedCount == |DiffOf(clientFiles[..i], files, tol)|
      {
        assert clientFiles[..i + 1][..i] == clientFiles[..i];
        var known, differing := JoinOne(clientFiles[i], tol);
        if known {
          changedCount := changedCount + differing;
        } else {
          newCount := newCount + 1;
        }
      }
      assert clientFiles[..|clientFiles|] == clientFiles;
    }

    /** The join of one listed file with the index. */
    method JoinOne(c: ClientRow, tol: int) returns (known: bool, differing: nat)
      ensures known == HasKey(files, c.key) && differing == CountDiffering(files, c, tol)
    {
      known, differing := false, 0;
      for i := 0 to |files|
        invariant known == HasKey(files[..i], c.key) && differing == CountDiffering(files[..i], c, tol)
      {
        assert files[..i + 1][..i] == files[..i];
        assert files[..i + 1] == files[..i] + [files[i]];
        if files[i].key == c.key {
          known := true;
          if files[i].size != c.size || Abs(files[i].mtime - c.mtime) > tol {
            differing := differing + 1;
          }
        }
      }
      assert files[..|files|] == files;
    }

    /** The new tasks of one listed file's join rows, behind those of the files before it. */
    method TasksFor(c: ClientRow, tol: int, cycle: nat, added: seq<Task>, ghost diff: seq<ClientRow>)
      returns (longer: seq<Task>)
      requires added == Fresh(diff, tasks, cycle)
      ensures longer == Fresh(diff + JoinRows(c, files, tol), tasks, cycle)
    {
      var known, differing := JoinOne(c, tol);
      var count := if known then differing else 1;
      longer := added;
      assert diff + Copies(c, 0) == diff;
      for j := 0 to count
        invariant longer == Fresh(diff + Copies(c, j), tasks, cycle)
      {
        longer := TaskFor(c, cycle, longer, diff, j);
      }
    }

    /** The new task of one join row, unless a task from before the statement is in its way. */
    method TaskFor(c: ClientRow, cycle: nat, added: seq<Task>, ghost diff: seq<ClientRow>, ghost j: nat)
      returns (longer: seq<Task>)
      requires added == Fresh(diff + Copies(c, j), tasks, cycle)
      ensures longer == Fresh(diff + Copies(c, j + 1), tasks, cycle)
    {
      FreshNext(diff, c, j, tasks, cycle);
      longer := added;
      if !Blocked(tasks, c.rel, cycle) {
        longer := longer + [Task(NextTaskId(tasks) + |longer|, c.rel, c.size, Pending, 0, cycle)];
      }
    }

    /** EnqueueDiffDownloads: one INSERT ... SELECT, so every NOT EXISTS sees the tasks from before it. */
    method EnqueueDiffDownloads(cycle: nat, tol: int) returns (n: nat)
      modifies this`tasks
      ensures tasks == Enqueued(old(tasks), clientFiles, files, tol, cycle)
      ensures n == |tasks| - |old(tasks)|
    {
      var added: seq<Task> := [];
      for i := 0 to |clientFiles|
        invariant tasks == old(tasks)
        invariant added == Fresh(DiffOf(clientFiles[..i], files, tol), tasks, cycle)
      {
        assert clientFiles[..i + 1][..i] == clientFiles[..i];
        added := TasksFor(clientFiles[i], tol, cycle, added, DiffOf(clientFiles[..i], files, tol));
      }
      assert clientFiles[..|clientFiles|] == clientFiles;
      n := |added|;
      tasks := tasks + added;
    }

    /** handleCollisions: keep the first row of every key. */
    method DedupClientFiles()
      modifies this`clientFiles
      ensures clientFiles == Dedup(old(clientFiles))
    {
      var kept: seq<ClientRow> := [];
      for i := 0 to |clientFiles|
        invariant clientFiles == old(clientFiles)
        invariant kept == Dedup(clientFiles[..i])
      {
        assert clientFiles[..i + 1][..i] == clientFiles[..i];
        if !ListsKey(clientFiles[..i], clientFiles[i].key) {
          kept := kept + [clientFiles[i]];
        }
      }
      assert clientFiles[..|clientFiles|] == clientFiles;
      clientFiles := kept;
    }

    /** The index effect of MoveDeleted when no move fails. */
    method MoveDeletedRows() returns (moved: nat)
      modifies this`files
      ensures files == Listed(old(files), clientFiles) && moved == |old(files)| - |files|
    {
      var kept: seq<FileRow> := [];
      moved := 0;
      for i := 0 to |files|
        invariant files == old(files)
        invariant kept == Listed(files[..i], clientFiles) && moved == i - |kept|
      {
        assert files[..i + 1][..i] == files[..i];
        if ListsKey(clientFiles, files[i].key) {
          kept := kept + [files[i]];
        } else {
          moved := moved + 1;
        }
      }
      assert files[..|files|] == files;
      files := kept;
    }

    /** One task of the queue: a file found is indexed and the task done, an absent one is skipped. */
    method WorkOff(t: Task, source: Source) returns (u: Task, missing: bool)
      modifies this`files
      ensures u == Processed(t, source) && missing == (Runnable(t) && t.rel !in source)
      ensures files == if Runnable(t) && t.rel in source then Upsert(old(files), RowFor(t.rel, source, norm))
                       else old(files)
    {
      u, missing := t, false;
      if t.status == Pending || t.status == InProgress {
        if t.rel in source {
          files := Upsert(files, RowFor(t.rel, source, norm));
          u := t.(status := Done);
        } else {
          u, missing := t.(status := Skipped), true;
        }
      }
    }

    /** The queue worked off without connection loss; it counts the tasks skipped. */
    method RunDownloadQueue(source: Source) returns (skipped: nat)
      modifies this`files, this`tasks
      ensures files == IndexAfter(old(files), old(tasks), source, norm)
      ensures tasks == ProcessedAll(old(tasks), source) && skipped == CountMissing(old(tasks), source)
    {
      skipped := 0;
      var queue := tasks;
      for i := 0 to |queue|
        invariant |tasks| == |queue| && queue == old(tasks)
        invariant files == IndexAfter(old(files), queue[..i], source, norm)
        invariant skipped == CountMissing(queue[..i], source)
        invariant forall j | 0 <= j < |queue| :: tasks[j] == if j < i then Processed(queue[j], source) else queue[j]
      {
        NextTask(old(files), queue, i, source, norm);
        var u, missing := WorkOff(queue[i], source);
        tasks := tasks[i := u];
        if missing {
          skipped := skipped + 1;
        }
      }
      assert queue[..|queue|] == queue;
    }

    /** One pass over a loaded listing. */
    method RunPass(listing: seq<ClientRow>, cycle: nat, source: Source, tol: int)
      returns (enqueued: nat, moved: nat, skipped: nat)
      modifies this
      ensures PassResult(Store(), enqueued, moved, skipped) == Pass(old(Store()), listing, source, tol, cycle, norm)
    {
      clientFiles := listing;
      DedupClientFiles();
      enqueued := EnqueueDiffDownloads(cycle, tol);
      moved := MoveDeletedRows();
      skipped := RunDownloadQueue(source);
    }

    /** One round of the pass loop: the listing, then the pass, and whether the loop ends with it. */
    method Round(cycle: nat, pass: nat, maxPasses: nat, before: nat, listings: nat -> Option<seq<ClientRow>>,
                 source: Source, tol: int)
      returns (stop: bool, failed: bool, skipped: nat, ghost left: Outcome)
      requires pass <= maxPasses
      modifies this
      ensures !stop ==> pass < maxPasses
      ensures !stop ==>
                left == CycleFrom(Store(), pass + 1, maxPasses, PassAt(listings, source, tol, cycle, norm))
      ensures Later(CycleFrom(old(Store()), pass, maxPasses, PassAt(listings, source, tol, cycle, norm)), before)
        == if stop then Outcome(Store(), pass, failed, skipped) else Later(left, skipped)
    {
      var listing := listings(pass);
      if listing.None? {
        return true, true, before, Outcome(Store(), pass, true, 0);
      }
      var enqueued, moved, more := RunPass(listing.value, cycle, source, tol);
      stop, failed, skipped := (enqueued == 0 && moved == 0) || pass == maxPasses, false, before + more;
      left := if stop then Outcome(Store(), pass, false, 0)
              else CycleFrom(Store(), pass + 1, maxPasses, PassAt(listings, source, tol, cycle, norm));
    }

    /** RunCycle's pass loop; `skipped` grows over the passes, as the transfer result does. */
    method RunCycle(cycle: nat, maxPasses: nat, listings: nat -> Option<seq<ClientRow>>, source: Source, tol: int)
      returns (passes: nat, failed: bool, skipped: nat)
      requires maxPasses >= 1
      modifies this
      ensures Outcome(Store(), passes, failed, skipped)
        == CycleFrom(old(Store()), 1, maxPasses, PassAt(listings, source, tol, cycle, norm))
    {
      ghost var left := CycleFrom(Store(), 1, maxPasses, PassAt(listings, source, tol, cycle, norm));
      ghost var goal := left;
      passes, failed, skipped := 1, false, 0;
      var stop := false;
      while !stop
        invariant 1 <= passes <= maxPasses
        invariant !stop ==> left == CycleFrom(Store(), passes, maxPasses, PassAt(listings, source, tol, cycle, norm))
        invariant goal == if stop then Outcome(Store(), passes, failed, skipped) else Later(left, skipped)
        decreases !stop, maxPasses - passes
      {
        stop, failed, skipped, left := Round(cycle, passes, maxPasses, skipped, listings, source, tol);
        if !stop {
          passes := passes + 1;
        }
      }
    }
  }
}
