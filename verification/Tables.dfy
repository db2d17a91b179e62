/**
 * The store's tables and the SQL statements of the reconciliation, each statement one step: the file
 * index, the client listing and the task queue. A table is the sequence of its rows in rowid order.
 */
module Tables {
  import opened Basics

  /** A row of `files`: the primary key is the spelling `rel`, the diff joins on `key`. */
  datatype FileRow = FileRow(rel: string, key: string, size: nat, mtime: int)

  /** A row of `client_files`. */
  datatype ClientRow = ClientRow(rel: string, key: string, size: nat, mtime: int)

  datatype Status = Pending | InProgress | Done | Failed | Skipped

  datatype Task = Task(id: nat, rel: string, size: nat, status: Status, attempts: nat, cycle: nat)

  predicate Runnable(t: Task) {
    t.status == Pending || t.status == InProgress
  }

  // ---- The diff ----

  predicate Differs(f: FileRow, c: ClientRow, tol: int) {
    f.size != c.size || Abs(f.mtime - c.mtime) > tol
  }

  predicate HasKey(files: seq<FileRow>, key: string) {
    exists f | f in files :: f.key == key
  }

  /** How many index rows of c's key differ from c. */
  function CountDiffering(files: seq<FileRow>, c: ClientRow, tol: int): (n: nat)
    ensures n == 0 <==> forall f | f in files && f.key == c.key :: !Differs(f, c, tol)
  {
    if files == [] then 0
    else
      var m := |files| - 1;
      assert files == files[..m] + [files[m]];
      CountDiffering(files[..m], c, tol) + if files[m].key == c.key && Differs(files[m], c, tol) then 1 else 0
  }

  function Copies(c: ClientRow, n: nat): seq<ClientRow> {
    seq(n, i => c)
  }

  /** The rows the LEFT JOIN keeps for one listed file: one if the key is new, else one per differing index row. */
  function JoinRows(c: ClientRow, files: seq<FileRow>, tol: int): seq<ClientRow> {
    Copies(c, if HasKey(files, c.key) then CountDiffering(files, c, tol) else 1)
  }

  /** All new and changed files, with the join's multiplicity. */
  function DiffOf(listing: seq<ClientRow>, files: seq<FileRow>, tol: int): seq<ClientRow> {
    if listing == [] then []
    else DiffOf(listing[..|listing| - 1], files, tol) + JoinRows(listing[|listing| - 1], files, tol)
  }

  /** A listed file the diff selects. */
  predicate Selected(c: ClientRow, files: seq<FileRow>, tol: int) {
    !HasKey(files, c.key) || exists f | f in files :: f.key == c.key && Differs(f, c, tol)
  }

  lemma {:induction false} DiffMembers(listing: seq<ClientRow>, files: seq<FileRow>, tol: int, c: ClientRow)
    ensures c in DiffOf(listing, files, tol) <==> c in listing && Selected(c, files, tol)
  {
    if listing != [] {
      var n := |listing| - 1;
      DiffMembers(listing[..n], files, tol, c);
      assert listing == listing[..n] + [listing[n]];
      JoinMembers(listing[n], files, tol, c);
    }
  }

  lemma JoinMembers(d: ClientRow, files: seq<FileRow>, tol: int, c: ClientRow)
    ensures c in JoinRows(d, files, tol) <==> c == d && Selected(c, files, tol)
  {
    if c == d && Selected(c, files, tol) {
      assert JoinRows(d, files, tol)[0] == c;
    }
  }

  /** The listed files whose key has no index row, in order. */
  function NewFiles(listing: seq<ClientRow>, files: seq<FileRow>): seq<ClientRow> {
    if listing == [] then []
    else
      var n := |listing| - 1;
      NewFiles(listing[..n], files) + if HasKey(files, listing[n].key) then [] else [listing[n]]
  }

  lemma {:induction false} NewFilesMembers(listing: seq<ClientRow>, files: seq<FileRow>, c: ClientRow)
    ensures c in NewFiles(listing, files) <==> c in listing && forall f | f in files :: f.key != c.key
  {
    if listing != [] {
      var n := |listing| - 1;
      NewFilesMembers(listing[..n], files, c);
      assert listing == listing[..n] + [listing[n]];
    }
  }

  // ---- Tasks ----

  predicate Blocks(t: Task, rel: string, cycle: nat) {
    t.rel == rel && (Runnable(t) || (t.status == Skipped && t.cycle == cycle))
  }

  predicate Blocked(tasks: seq<Task>, rel: string, cycle: nat) {
    exists t | t in tasks :: Blocks(t, rel, cycle)
  }

  function NextTaskId(tasks: seq<Task>): nat {
    if tasks == [] then 1 else tasks[|tasks| - 1].id + 1
  }

  /** The tasks the diff adds: one per join row whose path is not blocked by a task from before the statement. */
  function Fresh(diff: seq<ClientRow>, tasks: seq<Task>, cycle: nat): seq<Task> {
    if diff == [] then []
    else
      var n := |diff| - 1;
      var before := Fresh(diff[..n], tasks, cycle);
      if Blocked(tasks, diff[n].rel, cycle) then before
      else before + [Task(NextTaskId(tasks) + |before|, diff[n].rel, diff[n].size, Pending, 0, cycle)]
  }

  function Enqueued(tasks: seq<Task>, listing: seq<ClientRow>, files: seq<FileRow>, tol: int, cycle: nat): seq<Task> {
    tasks + Fresh(DiffOf(listing, files, tol), tasks, cycle)
  }

  lemma FreshNext(diff: seq<ClientRow>, c: ClientRow, n: nat, tasks: seq<Task>, cycle: nat)
    ensures var before := Fresh(diff + Copies(c, n), tasks, cycle);
            Fresh(diff + Copies(c, n + 1), tasks, cycle) ==
              if Blocked(tasks, c.rel, cycle) then before
              else before + [Task(NextTaskId(tasks) + |before|, c.rel, c.size, Pending, 0, cycle)]
  {
    var longer := diff + Copies(c, n + 1);
    assert longer[..|longer| - 1] == diff + Copies(c, n) && longer[|longer| - 1] == c;
  }

  predicate GrowingIds(tasks: seq<Task>) {
    forall i, j | 0 <= i < j < |tasks| :: tasks[i].id < tasks[j].id
  }

  predicate HasTask(tasks: seq<Task>, rel: string) {
    exists t | t in tasks :: t.rel == rel
  }

  predicate HasRel(rows: seq<ClientRow>, rel: string) {
    exists c | c in rows :: c.rel == rel
  }

  lemma {:induction false} FreshShape(diff: seq<ClientRow>, tasks: seq<Task>, cycle: nat)
    ensures forall i | 0 <= i < |Fresh(diff, tasks, cycle)| ::
      (var t := Fresh(diff, tasks, cycle)[i];
       t.id == NextTaskId(tasks) + i && t.status == Pending && t.cycle == cycle && t.attempts == 0)
  {
    if diff != [] {
      FreshShape(diff[..|diff| - 1], tasks, cycle);
    }
  }

  /** A path gets a new task exactly when the diff selects it and no task blocks it. */
  lemma {:induction false} FreshRels(diff: seq<ClientRow>, tasks: seq<Task>, cycle: nat, rel: string)
    ensures HasTask(Fresh(diff, tasks, cycle), rel) <==> HasRel(diff, rel) && !Blocked(tasks, rel, cycle)
  {
    if diff != [] {
      var n := |diff| - 1;
      FreshRels(diff[..n], tasks, cycle, rel);
      assert diff == diff[..n] + [diff[n]];
      var a, b := Fresh(diff[..n], tasks, cycle), Fresh(diff, tasks, cycle);
      if !Blocked(tasks, diff[n].rel, cycle) {
        assert b[|a|].rel == diff[n].rel;
        assert b == a + [b[|a|]];
      }
      if HasRel(diff[..n], rel) {
        var c :| c in diff[..n] && c.rel == rel;
        assert c in diff;
      }
    }
  }

  /** The listed file is new, or some row of its key has another size or a time further off than the tolerance. */
  predicate NewOrChanged(c: ClientRow, files: seq<FileRow>, tol: int) {
    || (forall f | f in files :: f.key != c.key)
    || exists f | f in files ::
         f.key == c.key && (f.size != c.size || f.mtime - c.mtime > tol || c.mtime - f.mtime > tol)
  }

  /** A task of this path is pending or in progress, or was skipped in this cycle. */
  predicate InTheWay(tasks: seq<Task>, rel: string, cycle: nat) {
    exists t | t in tasks :: t.rel == rel && (t.status == Pending || t.status == InProgress
                                              || (t.status == Skipped && t.cycle == cycle))
  }

  /**
   * The enqueue statement, in sizes, times and statuses: a path gets a new task exactly when a listed file of it
   * is new or changed and no task is in its way; the task is pending, of this cycle, with the listed size.
   */
  lemma {:induction false} TaskIffChanged(tasks: seq<Task>, listing: seq<ClientRow>, files: seq<FileRow>, tol: int,
                                          cycle: nat, rel: string)
    ensures var added := Enqueued(tasks, listing, files, tol, cycle)[|tasks|..];
            && (HasTask(added, rel)
                <==> (exists c :: c in listing && c.rel == rel && NewOrChanged(c, files, tol))
                     && !InTheWay(tasks, rel, cycle))
            && forall t | t in added && t.rel == rel ::
                 && t.status == Pending && t.attempts == 0 && t.cycle == cycle
                 && exists c :: c in listing && c.rel == rel && c.size == t.size && NewOrChanged(c, files, tol)
    ensures Enqueued(tasks, listing, files, tol, cycle)[..|tasks|] == tasks
  {
    var diff := DiffOf(listing, files, tol);
    assert Enqueued(tasks, listing, files, tol, cycle)[|tasks|..] == Fresh(diff, tasks, cycle);
    FreshRels(diff, tasks, cycle, rel);
    FreshShape(diff, tasks, cycle);
    forall c
      ensures c in diff <==> c in listing && NewOrChanged(c, files, tol)
    {
      DiffMembers(listing, files, tol, c);
    }
    forall t | t in Fresh(diff, tasks, cycle)
      ensures exists c :: c in diff && c.rel == t.rel && c.size == t.size
    {
      FreshFrom(diff, tasks, cycle, t);
    }
  }

  /** A new task has path and size of a file of the diff. */
  lemma {:induction false} FreshFrom(diff: seq<ClientRow>, tasks: seq<Task>, cycle: nat, t: Task)
    requires t in Fresh(diff, tasks, cycle)
    ensures exists c :: c in diff && c.rel == t.rel && c.size == t.size
  {
    var n := |diff| - 1;
    assert diff == diff[..n] + [diff[n]];
    if t in Fresh(diff[..n], tasks, cycle) {
      FreshFrom(diff[..n], tasks, cycle, t);
    }
  }

  lemma EnqueueKeepsIds(tasks: seq<Task>, listing: seq<ClientRow>, files: seq<FileRow>, tol: int, cycle: nat)
    requires GrowingIds(tasks)
    ensures GrowingIds(Enqueued(tasks, listing, files, tol, cycle))
  {
    FreshShape(DiffOf(listing, files, tol), tasks, cycle);
  }

  // ---- Deduplication ----

  predicate UniqueKeys(listing: seq<ClientRow>) {
    forall i, j | 0 <= i < j < |listing| :: listing[i].key != listing[j].key
  }

  predicate ListsKey(listing: seq<ClientRow>, key: string) {
    exists c | c in listing :: c.key == key
  }

  /** One row per key, the one with the smallest rowid. */
  function Dedup(listing: seq<ClientRow>): seq<ClientRow> {
    if listing == [] then []
    else
      var n := |listing| - 1;
      var d := Dedup(listing[..n]);
      if ListsKey(listing[..n], listing[n].key) then d else d + [listing[n]]
  }

  /** A row that is the first of its key. */
  predicate FirstOfKey(listing: seq<ClientRow>, i: nat)
    requires i < |listing|
  {
    forall j | 0 <= j < i :: listing[j].key != listing[i].key
  }

  lemma FirstOfKeyInit(listing: seq<ClientRow>, n: nat, i: nat)
    requires i < n <= |listing|
    ensures FirstOfKey(listing[..n], i) == FirstOfKey(listing, i)
  {
  }

  /** Deduplication keeps exactly the rows that are the first of their key. */
  lemma {:induction false} DedupKeepsFirsts(listing: seq<ClientRow>, c: ClientRow)
    ensures c in Dedup(listing) <==> exists i: nat :: i < |listing| && listing[i] == c && FirstOfKey(listing, i)
  {
    if listing != [] {
      var n := |listing| - 1;
      var init := listing[..n];
      DedupKeepsFirsts(init, c);
      assert FirstOfKey(listing, n) <==> !ListsKey(init, listing[n].key) by {
        forall j | 0 <= j < n
          ensures init[j] == listing[j] && init[j] in init
        {
        }
      }
      if c in Dedup(init) {
        var i: nat :| i < |init| && init[i] == c && FirstOfKey(init, i);
        FirstOfKeyInit(listing, n, i);
      }
      if i: nat :| i < |listing| && listing[i] == c && FirstOfKey(listing, i) {
        if i < n {
          FirstOfKeyInit(listing, n, i);
          assert init[i] == c && FirstOfKey(init, i);
        }
      }
    }
  }

  lemma {:induction false} DedupUnique(listing: seq<ClientRow>)
    ensures UniqueKeys(Dedup(listing)) && forall c | c in Dedup(listing) :: c in listing
  {
    if listing != [] {
      var n := |listing| - 1;
      DedupUnique(listing[..n]);
      assert listing == listing[..n] + [listing[n]];
      forall c | c in Dedup(listing[..n]) && !ListsKey(listing[..n], listing[n].key)
        ensures c.key != listing[n].key
      {
      }
    }
  }

  /** Deduplication loses no key. */
  lemma {:induction false} DedupKeys(listing: seq<ClientRow>, k: string)
    ensures ListsKey(Dedup(listing), k) <==> ListsKey(listing, k)
  {
    if listing != [] {
      var n := |listing| - 1;
      DedupKeys(listing[..n], k);
      DedupKeys(listing[..n], listing[n].key);
      assert listing == listing[..n] + [listing[n]];
      if ListsKey(listing[..n], k) {
        var c :| c in Dedup(listing[..n]) && c.key == k;
        assert c in Dedup(listing);
        var d :| d in listing[..n] && d.key == k;
        assert d in listing;
      } else if listing[n].key == k {
        assert listing[n] in Dedup(listing);
      }
    }
  }

  // ---- Index rows ----

  predicate UniqueRels(files: seq<FileRow>) {
    forall i, j | 0 <= i < j < |files| :: files[i].rel != files[j].rel
  }

  /** INSERT ... ON CONFLICT(relpath) DO UPDATE. */
  function Upsert(files: seq<FileRow>, row: FileRow): (r: seq<FileRow>)
  {
    if files == [] then [row]
    else if files[0].rel == row.rel then [row] + files[1..]
    else [files[0]] + Upsert(files[1..], row)
  }

  lemma {:induction false} UpsertMembers(files: seq<FileRow>, row: FileRow)
    requires UniqueRels(files)
    ensures UniqueRels(Upsert(files, row))
    ensures forall f :: f in Upsert(files, row) <==> f == row || (f in files && f.rel != row.rel)
  {
    if files != [] && files[0].rel != row.rel {
      UpsertMembers(files[1..], row);
      assert files == [files[0]] + files[1..];
      forall f | f in Upsert(files[1..], row)
        ensures f.rel != files[0].rel
      {
        if f in files[1..] {
          var i :| 0 <= i < |files| - 1 && files[1..][i] == f;
          assert files[i + 1] == f;
        }
      }
    } else if files != [] {
      assert files == [files[0]] + files[1..];
      forall f | f in files[1..]
        ensures f.rel != row.rel
      {
        var i :| 0 <= i < |files| - 1 && files[1..][i] == f;
        assert files[i + 1] == f;
      }
    }
  }

  /** What MoveDeleted leaves of the index: the rows whose key is listed. */
  function Listed(files: seq<FileRow>, listing: seq<ClientRow>): seq<FileRow> {
    if files == [] then []
    else
      var n := |files| - 1;
      Listed(files[..n], listing) + if ListsKey(listing, files[n].key) then [files[n]] else []
  }

  lemma {:induction false} ListedMembers(files: seq<FileRow>, listing: seq<ClientRow>, f: FileRow)
    ensures f in Listed(files, listing) <==> f in files && ListsKey(listing, f.key)
  {
    if files != [] {
      ListedMembers(files[..|files| - 1], listing, f);
      assert files == files[..|files| - 1] + [files[|files| - 1]];
    }
  }

  lemma {:induction false} ListedShape(files: seq<FileRow>, listing: seq<ClientRow>)
    ensures UniqueRels(files) ==> UniqueRels(Listed(files, listing))
    ensures |Listed(files, listing)| <= |files|
    ensures (forall f | f in files :: ListsKey(listing, f.key)) ==> Listed(files, listing) == files
    ensures |Listed(files, listing)| == |files| ==> forall f | f in files :: ListsKey(listing, f.key)
  {
    if files != [] {
      var n := |files| - 1;
      ListedShape(files[..n], listing);
      assert files == files[..n] + [files[n]];
      forall f | f in Listed(files[..n], listing)
        ensures UniqueRels(files) ==> f.rel != files[n].rel
      {
        ListedMembers(files[..n], listing, f);
        var i :| 0 <= i < n && files[..n][i] == f;
        assert files[i] == f;
      }
    }
  }

  // ---- One runnable task per path ----

  /** No two pending or running tasks are for the same path. */
  predicate UniqueRunnable(tasks: seq<Task>) {
    forall i, j | 0 <= i < j < |tasks| && Runnable(tasks[i]) && Runnable(tasks[j]) :: tasks[i].rel != tasks[j].rel
  }

  predicate DistinctRels(tasks: seq<Task>) {
    forall i, j | 0 <= i < j < |tasks| :: tasks[i].rel != tasks[j].rel
  }

  predicate UniqueClientRels(listing: seq<ClientRow>) {
    forall i, j | 0 <= i < j < |listing| :: listing[i].rel != listing[j].rel
  }

  lemma {:induction false} FreshRepeat(diff: seq<ClientRow>, c: ClientRow, k: nat, tasks: seq<Task>, cycle: nat)
    ensures var a, b := Fresh(diff, tasks, cycle), Fresh(diff + seq(k, i => c), tasks, cycle);
            && a <= b && |b| == |a| + (if Blocked(tasks, c.rel, cycle) then 0 else k)
            && forall i | |a| <= i < |b| :: b[i].rel == c.rel
  {
    if k == 0 {
      assert diff + seq(0, i => c) == diff;
    } else {
      FreshRepeat(diff, c, k - 1, tasks, cycle);
      assert (diff + seq(k, i => c))[..|diff| + k - 1] == diff + seq(k - 1, i => c);
    }
  }

  /** New tasks are for paths that are listed. */
  lemma FreshIsListed(listing: seq<ClientRow>, files: seq<FileRow>, tasks: seq<Task>, tol: int, cycle: nat, i: nat)
    requires i < |Fresh(DiffOf(listing, files, tol), tasks, cycle)|
    ensures exists c :: c in listing && c.rel == Fresh(DiffOf(listing, files, tol), tasks, cycle)[i].rel
  {
    var diff := DiffOf(listing, files, tol);
    var t := Fresh(diff, tasks, cycle)[i];
    assert t in Fresh(diff, tasks, cycle);
    FreshRels(diff, tasks, cycle, t.rel);
    var d :| d in diff && d.rel == t.rel;
    DiffMembers(listing, files, tol, d);
  }

  lemma {:induction false} FreshDistinct(listing: seq<ClientRow>, files: seq<FileRow>, tasks: seq<Task>, tol: int,
                                         cycle: nat)
    requires UniqueClientRels(listing)
    ensures DistinctRels(Fresh(DiffOf(listing, files, tol), tasks, cycle))
      <==> forall c | c in listing :: Blocked(tasks, c.rel, cycle) || |JoinRows(c, files, tol)| <= 1
  {
    if listing != [] {
      var n := |listing| - 1;
      var init, c := listing[..n], listing[n];
      FreshDistinct(init, files, tasks, tol, cycle);
      LastRowsDistinct(init, c, files, tasks, tol, cycle);
      assert listing == init + [c];
    }
  }

  /** One more listed file adds as many tasks as it has join rows, unless it is blocked. */
  lemma LastRowsDistinct(init: seq<ClientRow>, c: ClientRow, files: seq<FileRow>, tasks: seq<Task>, tol: int,
                         cycle: nat)
    requires UniqueClientRels(init + [c])
    ensures DistinctRels(Fresh(DiffOf(init + [c], files, tol), tasks, cycle))
      <==> && DistinctRels(Fresh(DiffOf(init, files, tol), tasks, cycle))
           && (Blocked(tasks, c.rel, cycle) || |JoinRows(c, files, tol)| <= 1)
  {
    var diff, k := DiffOf(init, files, tol), |JoinRows(c, files, tol)|;
    var a, b := Fresh(diff, tasks, cycle), Fresh(diff + seq(k, i => c), tasks, cycle);
    assert (init + [c])[..|init|] == init && JoinRows(c, files, tol) == seq(k, i => c);
    FreshRepeat(diff, c, k, tasks, cycle);
    forall i | 0 <= i < |a|
      ensures a[i].rel != c.rel
    {
      FreshIsListed(init, files, tasks, tol, cycle, i);
      var d :| d in init && d.rel == a[i].rel;
      OtherRel(init, c, d);
    }
    LastBlockDistinct(a, b, c.rel);
  }

  lemma OtherRel(init: seq<ClientRow>, c: ClientRow, d: ClientRow)
    requires UniqueClientRels(init + [c]) && d in init
    ensures d.rel != c.rel
  {
    var i :| 0 <= i < |init| && init[i] == d;
    assert (init + [c])[i] == d && (init + [c])[|init|] == c;
  }

  lemma LastBlockDistinct(a: seq<Task>, b: seq<Task>, rel: string)
    requires a <= b && (forall i | 0 <= i < |a| :: a[i].rel != rel) && forall i | |a| <= i < |b| :: b[i].rel == rel
    ensures DistinctRels(b) <==> DistinctRels(a) && |b| <= |a| + 1
  {
    if |b| > |a| + 1 {
      assert b[|a|].rel == b[|a| + 1].rel;
    }
    if DistinctRels(b) {
      assert forall i | 0 <= i < |a| :: a[i] == b[i];
    }
  }

  /**
   * The enqueue statement keeps one runnable task per path exactly when no unblocked listed file
   * joins with two differing index rows.
   */
  lemma EnqueueKeepsUnique(listing: seq<ClientRow>, files: seq<FileRow>, tasks: seq<Task>, tol: int, cycle: nat)
    requires UniqueRunnable(tasks) && UniqueClientRels(listing)
    ensures UniqueRunnable(Enqueued(tasks, listing, files, tol, cycle))
      <==> forall c | c in listing :: Blocked(tasks, c.rel, cycle) || |JoinRows(c, files, tol)| <= 1
  {
    var diff := DiffOf(listing, files, tol);
    var added := Fresh(diff, tasks, cycle);
    FreshDistinct(listing, files, tasks, tol, cycle);
    FreshShape(diff, tasks, cycle);
    var all := tasks + added;
    forall i, j | 0 <= i < |tasks| && 0 <= j < |added| && Runnable(tasks[i])
      ensures tasks[i].rel != added[j].rel
    {
      assert HasTask(added, added[j].rel) by { assert added[j] in added; }
      FreshRels(diff, tasks, cycle, added[j].rel);
      assert tasks[i] in tasks && !Blocks(tasks[i], added[j].rel, cycle);
    }
    forall j | 0 <= j < |added|
      ensures all[|tasks| + j] == added[j] && Runnable(added[j])
    {
    }
    if UniqueRunnable(all) {
      forall i, j | 0 <= i < j < |added|
        ensures added[i].rel != added[j].rel
      {
        assert all[|tasks| + i].rel != all[|tasks| + j].rel;
      }
    }
  }

  /** One index row per key. */
  predicate UniqueFileKeys(files: seq<FileRow>) {
    forall i, j | 0 <= i < j < |files| :: files[i].key != files[j].key
  }

  lemma {:induction false} UniqueKeyJoinsOnce(files: seq<FileRow>, c: ClientRow, tol: int)
    requires UniqueFileKeys(files)
    ensures CountDiffering(files, c, tol) <= 1 && |JoinRows(c, files, tol)| <= 1
  {
    if files != [] {
      var m := |files| - 1;
      UniqueKeyJoinsOnce(files[..m], c, tol);
      if files[m].key == c.key {
        forall f | f in files[..m]
          ensures f.key != c.key
        {
        }
      }
    }
  }

  /** With one index row per key, enqueueing keeps one runnable task per path. */
  lemma EnqueueUniqueWithUniqueKeys(listing: seq<ClientRow>, files: seq<FileRow>, tasks: seq<Task>, tol: int,
                                    cycle: nat)
    requires UniqueRunnable(tasks) && UniqueClientRels(listing) && UniqueFileKeys(files)
    ensures UniqueRunnable(Enqueued(tasks, listing, files, tol, cycle))
  {
    forall c | c in listing
      ensures |JoinRows(c, files, tol)| <= 1
    {
      UniqueKeyJoinsOnce(files, c, tol);
    }
    EnqueueKeepsUnique(listing, files, tasks, tol, cycle);
  }
}
