/**
 * The trasher's methods, proved against the transitions of module Trash, and batched trashing against
 * the one-shot kind.
 */
module Trashing {
  import opened Basics
  import opened TrashPaths
  import opened Trash
  import opened TrashCuts
  import opened TrashAttempts

  /** Index rows whose key the client does not list. */
  ghost function Missing(index: map<Path, nat>, listed: set<string>, norm: Path -> string): set<Path> {
    set r | r in index && norm(r) !in listed
  }

  /** The rows a batch of at most `limit` cleanup candidates holds. */
  function DueRows(rows: seq<TrashRow>, cutoff: int): seq<TrashRow> {
    if rows == [] then [] else (if rows[0].at < cutoff then [rows[0]] else []) + DueRows(rows[1..], cutoff)
  }

  function Without(rows: seq<TrashRow>, i: nat): seq<TrashRow>
    requires i < |rows|
  {
    rows[..i] + rows[i + 1..]
  }

  lemma {:induction false} DueFirst(rows: seq<TrashRow>, cutoff: int)
    ensures var i := FirstDue(rows, cutoff);
            if i == |rows| then DueRows(rows, cutoff) == []
            else DueRows(rows, cutoff) == [rows[i]] + DueRows(Without(rows, i), cutoff)
  {
    if rows != [] {
      if rows[0].at < cutoff {
        assert Without(rows, 0) == rows[1..];
      } else {
        DueFirst(rows[1..], cutoff);
        if FirstDue(rows[1..], cutoff) < |rows| - 1 {
          DueBehind(rows, FirstDue(rows[1..], cutoff), cutoff);
        }
      }
    }
  }

  lemma DueBehind(rows: seq<TrashRow>, i: nat, cutoff: int)
    requires rows != [] && rows[0].at >= cutoff && i < |rows| - 1
    requires DueRows(rows[1..], cutoff) == [rows[1..][i]] + DueRows(Without(rows[1..], i), cutoff)
    ensures DueRows(rows, cutoff) == [rows[i + 1]] + DueRows(Without(rows, i + 1), cutoff)
  {
    DueLater(rows, i, cutoff);
  }

  lemma DueLater(rows: seq<TrashRow>, i: nat, cutoff: int)
    requires rows != [] && rows[0].at >= cutoff && i < |rows| - 1
    ensures DueRows(Without(rows, i + 1), cutoff) == DueRows(Without(rows[1..], i), cutoff)
  {
    var fewer := Without(rows, i + 1);
    assert fewer[0] == rows[0] && fewer[1..] == Without(rows[1..], i);
  }

  // ---- The methods ----

  // ---- Files that cannot be removed ----

  predicate Purges(s: State) {
    |s.rows| == |s.contents| && forall r | r in s.rows :: r.rel != []
  }

  /** The files left of `from` when those in `clean` stay and the stuck ones could not be removed. */
  function WithStuck(from: map<Path, Bytes>, clean: map<Path, Bytes>, stuck: set<Path>): map<Path, Bytes> {
    map p | p in from && (p in clean || p in stuck) :: from[p]
  }

  /** A cleanup that cannot remove the files at some paths: their rows go like those of the others. */
  function PurgedBut(s: State, cutoff: int, stuck: set<Path>): State
    requires Purges(s)
  {
    Purge(s, cutoff).(bin := WithStuck(s.bin, Purge(s, cutoff).bin, stuck))
  }

  /** The path is the slot of a row older than the cutoff. */
  ghost predicate ExpiredSlot(rows: seq<TrashRow>, cutoff: int, p: Path) {
    exists r :: r in rows && r.at < cutoff && r.rel != [] && SlotOf(r) == p
  }

  lemma DroppedMembers(rows: seq<TrashRow>, k: nat, r: TrashRow)
    requires k < |rows| && GoodRows(rows)
    ensures r in rows[..k] + rows[k + 1..] <==> r in rows && r != rows[k]
  {
    if r in rows && r != rows[k] {
      var i :| 0 <= i < |rows| && rows[i] == r;
      if i > k {
        assert rows[k + 1..][i - k - 1] == r;
      } else {
        assert rows[..k][i] == r;
      }
    }
  }

  /** What an expiring row takes with it. */
  lemma DropRowLeaves(s: State, k: nat, cutoff: int)
    requires Inv(s) && k < |s.rows| && s.rows[k].at < cutoff
    ensures forall r :: r in DropRow(s, k).rows <==> r in s.rows && r != s.rows[k]
    ensures forall p :: (ExpiredSlot(s.rows, cutoff, p)
                         <==> ExpiredSlot(DropRow(s, k).rows, cutoff, p) || p == SlotOf(s.rows[k]))
  {
    forall r
      ensures r in DropRow(s, k).rows <==> r in s.rows && r != s.rows[k]
    {
      DroppedMembers(s.rows, k, r);
    }
    assert s.rows[k] in s.rows;
  }

  /** The rows of u are those of s that are not expired, and its files those of s in no expired row's slot. */
  ghost predicate LeavesUnexpired(s: State, u: State, cutoff: int) {
    && (forall r :: r in u.rows <==> r in s.rows && r.at >= cutoff)
    && (forall p :: p in u.bin <==> p in s.bin && !ExpiredSlot(s.rows, cutoff, p))
    && (forall p | p in u.bin :: p in s.bin && u.bin[p] == s.bin[p])
  }

  lemma LeavesOneMore(s: State, k: nat, u: State, cutoff: int)
    requires Inv(s) && k < |s.rows| && s.rows[k].at < cutoff && LeavesUnexpired(DropRow(s, k), u, cutoff)
    ensures LeavesUnexpired(s, u, cutoff)
  {
    DropRowLeaves(s, k, cutoff);
  }

  /** What a cleanup leaves. */
  lemma {:induction false} PurgeLeaves(s: State, cutoff: int)
    requires Inv(s) && Purges(s)
    ensures LeavesUnexpired(s, Purge(s, cutoff), cutoff)
    decreases |s.rows|
  {
    var k := FirstDue(s.rows, cutoff);
    if k < |s.rows| {
      DropRowRemoves(s, k);
      PurgeLeaves(DropRow(s, k), cutoff);
      LeavesOneMore(s, k, Purge(DropRow(s, k), cutoff), cutoff);
    }
  }

  /**
   * A file that cannot be removed loses its row: rows and disk stay in step, and exactly the entries older
   * than the cutoff are gone, if and only if no stuck file is there in an expired row's slot.
   */
  lemma CleanupKeepsInvIff(s: State, cutoff: int, stuck: set<Path>)
    requires Inv(s)
    ensures Purges(s)
    ensures Inv(PurgedBut(s, cutoff, stuck))
      <==> forall p | p in stuck && p in s.bin :: !ExpiredSlot(s.rows, cutoff, p)
    ensures Inv(PurgedBut(s, cutoff, stuck)) ==>
              Ledger(PurgedBut(s, cutoff, stuck)) == Unexpired(Ledger(s), cutoff)
  {
    PurgeFilters(s, cutoff);
    if p :| p in stuck && p in s.bin && ExpiredSlot(s.rows, cutoff, p) {
      StuckBreaks(s, cutoff, stuck, p);
    } else {
      NothingStuck(s, cutoff, stuck);
    }
  }

  lemma StuckBreaks(s: State, cutoff: int, stuck: set<Path>, p: Path)
    requires Inv(s) && Purges(s) && p in stuck && p in s.bin && ExpiredSlot(s.rows, cutoff, p)
    ensures !Inv(PurgedBut(s, cutoff, stuck))
  {
    PurgeLeaves(s, cutoff);
    StuckIsStray(s, cutoff, Purge(s, cutoff).rows, p);
    StrayBreaks(PurgedBut(s, cutoff, stuck), p);
  }

  lemma NothingStuck(s: State, cutoff: int, stuck: set<Path>)
    requires Inv(s) && Purges(s) && forall p | p in stuck && p in s.bin :: !ExpiredSlot(s.rows, cutoff, p)
    ensures PurgedBut(s, cutoff, stuck) == Purge(s, cutoff)
  {
    PurgeLeaves(s, cutoff);
    SameFiles(s.bin, Purge(s, cutoff).bin, stuck);
  }

  lemma SameFiles(from: map<Path, Bytes>, clean: map<Path, Bytes>, stuck: set<Path>)
    requires forall p | p in clean :: p in from && from[p] == clean[p]
    requires forall p | p in stuck && p in from :: p in clean
    ensures WithStuck(from, clean, stuck) == clean
  {
  }

  /** The slot of an expired row is no slot of a row that stays. */
  lemma StuckIsStray(s: State, cutoff: int, rows: seq<TrashRow>, p: Path)
    requires Inv(s) && ExpiredSlot(s.rows, cutoff, p) && forall r | r in rows :: r in s.rows && r.at >= cutoff
    ensures forall i | 0 <= i < |rows| :: rows[i].rel != [] && SlotOf(rows[i]) != p
  {
    var e :| e in s.rows && e.at < cutoff && e.rel != [] && SlotOf(e) == p;
    forall i | 0 <= i < |rows|
      ensures rows[i].rel != [] && SlotOf(rows[i]) != p
    {
      assert rows[i] in rows;
      OneRowPerSlot(s, rows[i], e);
    }
  }

  lemma OneRowPerSlot(s: State, a: TrashRow, b: TrashRow)
    requires Inv(s) && a in s.rows && b in s.rows
    ensures a.rel != [] && b.rel != [] && (SlotOf(a) == SlotOf(b) ==> a == b)
  {
    var j :| 0 <= j < |s.rows| && s.rows[j] == a;
    var k :| 0 <= k < |s.rows| && s.rows[k] == b;
    assert Slots(s.rows)[j] == SlotOf(a) && Slots(s.rows)[k] == SlotOf(b);
  }

  lemma OneMoreStuck(from: map<Path, Bytes>, clean: map<Path, Bytes>, stuck: set<Path>, p: Path)
    ensures WithStuck(from, clean - {p}, stuck)
      == if p in stuck then WithStuck(from, clean, stuck) else WithStuck(from, clean, stuck) - {p}
  {
  }

  lemma StuckFromStart(bin: map<Path, Bytes>, stuck: set<Path>)
    ensures WithStuck(bin, bin, stuck) == bin
  {
  }

  /** Vacating is moving the file aside and then renumbering its row. */
  lemma VacateIsTwoSteps(s: State, rel: Path)
    requires rel != []
    ensures Vacate(s, rel) == if HasCanonical(s.rows, rel) || rel in s.bin
                              then Aside(s, rel).(rows := Bump(s.rows, rel, MaxVersion(s.rows, rel) + 1)) else s
  {
  }

  class Trasher {
    const norm: Path -> string
    var storage: map<Path, Bytes>
    var bin: map<Path, Bytes>
    var rows: seq<TrashRow>
    var index: map<Path, nat>
    ghost var contents: seq<Bytes>

    ghost function St(): State
      reads this
    {
      State(storage, bin, rows, contents, index)
    }

    constructor (norm: Path -> string, storage: map<Path, Bytes>, index: map<Path, nat>)
      ensures this.norm == norm && St() == State(storage, map[], [], [], index) && Inv(St())
    {
      this.norm := norm;
      this.storage, this.index := storage, index;
      bin, rows, contents := map[], [], [];
    }

    method HasCanonicalTrash(rel: Path) returns (found: bool)
      ensures found == HasCanonical(rows, rel)
    {
      for i := 0 to |rows|
        invariant forall j | 0 <= j < i :: rows[j].rel != rel || rows[j].version != 0
      {
        if rows[i].rel == rel && rows[i].version == 0 {
          return true;
        }
      }
      return false;
    }

    method MaxTrashVersion(rel: Path) returns (m: nat)
      ensures m == MaxVersion(rows, rel)
    {
      m := 0;
      for i := 0 to |rows|
        invariant m == MaxVersion(rows[..i], rel)
      {
        assert rows[..i + 1][..i] == rows[..i];
        if rows[i].rel == rel && rows[i].version > m {
          m := rows[i].version;
        }
      }
      assert rows[..|rows|] == rows;
    }

    method BumpCanonicalToVersion(rel: Path, n: nat)
      modifies this`rows
      ensures rows == Bump(old(rows), rel, n)
    {
      var out := [];
      for i := 0 to |rows|
        invariant rows == old(rows)
        invariant |out| == i && forall j | 0 <= j < i :: out[j] == BumpRow(rows[j], rel, n)
      {
        out := out + [if rows[i].rel == rel && rows[i].version == 0 then rows[i].(version := n) else rows[i]];
      }
      rows := out;
    }

    method DeleteFileByNorm(k: string)
      modifies this`index
      ensures index == DropKey(old(index), norm, k)
    {
      index := map r | r in index && norm(r) != k :: index[r];
    }

    /** moveFile between two trash slots, with its delete-destination branch. */
    method MoveInBin(src: Path, dst: Path)
      requires src in bin && src != dst
      modifies this`bin
      ensures bin == MoveFile(old(bin), src, dst)
    {
      var content := bin[src];
      if dst in bin {
        bin := bin - {dst};
      }
      bin := (bin - {src})[dst := content];
    }

    /** The first half of moveOne: the canonical slot is vacated, on disk and, unless that fails, in the table. */
    method VacateSlot(rel: Path, fails: bool)
      requires rel != []
      modifies this`bin, this`rows
      ensures St() == if fails then Aside(old(St()), rel) else Vacate(old(St()), rel)
    {
      VacateIsTwoSteps(St(), rel);
      var hasCanon := HasCanonicalTrash(rel);
      if !hasCanon && rel !in bin {
        return;
      }
      var maxV := MaxTrashVersion(rel);
      if rel in bin {
        OtherSlot(rel, maxV + 1);
        MoveInBin(rel, Slot(rel, maxV + 1));
      }
      if !fails {
        BumpCanonicalToVersion(rel, maxV + 1);
      }
    }

    /** The second half of moveOne, up to where it fails: the file moves, its index row goes, its trash row comes. */
    method TakeIn(rel: Path, size: nat, now: int, fail: Option<Failure>, ghost s: State)
      requires rel != [] && rel in storage && storage == s.storage && index == s.index && St() == Vacate(s, rel)
      requires fail.Some? ==> Orphans(fail.value)
      modifies this
      ensures St() == if fail.None? then MoveOne(s, rel, size, now, norm)
                      else CutAt(s, rel, size, now, norm, fail.value)
    {
      var content := storage[rel];
      storage := storage - {rel};
      bin := bin[rel := content];
      if fail == Some(MovedIn) {
        return;
      }
      DeleteFileByNorm(norm(rel));
      if fail.None? {
        rows := rows + [TrashRow(NextId(rows), rel, 0, size, now)];
        contents := contents + [content];
      }
    }

    /** moveOne: vacate the canonical slot if it is taken, move the file there, swap the index row for a trash row. */
    method MoveOneFile(rel: Path, size: nat, now: int, fail: Option<Failure>) returns (ok: bool)
      requires rel != []
      modifies this
      ensures ok <==> fail.None?
      ensures St() == if fail.None? then MoveOne(old(St()), rel, size, now, norm)
                      else if rel in old(storage) then CutAt(old(St()), rel, size, now, norm, fail.value) else old(St())
    {
      ok := fail.None?;
      if fail == Some(Untouched) || (fail.Some? && rel !in storage) {
        return;
      }
      if rel !in storage {
        DeleteFileByNorm(norm(rel));
        return;
      }
      ghost var s := St();
      VacateSlot(rel, fail == Some(MovedAside));
      if fail == Some(MovedAside) || fail == Some(Renumbered) {
        return;
      }
      TakeIn(rel, size, now, fail, s);
    }

    method SelectTrashDue(cutoff: int, limit: nat) returns (due: seq<TrashRow>)
      ensures due == DueRows(rows, cutoff)[..Min(limit, |DueRows(rows, cutoff)|)]
    {
      due := [];
      var i := 0;
      assert rows[0..] == rows;
      while i < |rows| && |due| < limit
        invariant 0 <= i <= |rows| && |due| <= limit
        invariant due + DueRows(rows[i..], cutoff) == DueRows(rows, cutoff)
      {
        assert rows[i..][1..] == rows[i + 1..];
        if rows[i].at < cutoff {
          due := due + [rows[i]];
        }
        i := i + 1;
      }
      if i == |rows| {
        assert rows[i..] == [];
      }
    }

    method DeleteTrash(id: nat)
      requires GoodRows(rows) && |rows| == |contents|
      modifies this`rows, this`contents
      ensures (forall r | r in old(rows) :: r.id != id) ==> rows == old(rows) && contents == old(contents)
      ensures forall k | 0 <= k < |old(rows)| && old(rows)[k].id == id ::
                && rows == old(rows)[..k] + old(rows)[k + 1..]
                && contents == old(contents)[..k] + old(contents)[k + 1..]
    {
      for i := 0 to |rows|
        invariant rows == old(rows) && contents == old(contents) && forall j | 0 <= j < i :: rows[j].id != id
      {
        if rows[i].id == id {
          rows := rows[..i] + rows[i + 1..];
          contents := contents[..i] + contents[i + 1..];
          return;
        }
      }
    }

    /** The rows are those of `clean`, and its files are here, with the stuck ones of `from`. */
    ghost predicate Follows(clean: State, from: map<Path, Bytes>, stuck: set<Path>)
      reads this
    {
      && Inv(clean) && storage == clean.storage && rows == clean.rows && contents == clean.contents
      && index == clean.index && bin == WithStuck(from, clean.bin, stuck)
    }

    method RemoveTrashed(p: Path, stuck: set<Path>)
      modifies this`bin
      ensures bin == if p in stuck then old(bin) else old(bin) - {p}
    {
      if p in bin && p !in stuck {
        bin := bin - {p};
      }
    }

    /** A row's file is removed if still there, unless that fails; then the row, all the same. */
    method ExpireRow(it: TrashRow, ghost k: nat, stuck: set<Path>, ghost clean: State, ghost from: map<Path, Bytes>)
      requires Follows(clean, from, stuck) && k < |rows| && it == rows[k]
      modifies this`bin, this`rows, this`contents
      ensures Follows(DropRow(clean, k), from, stuck)
    {
      DropRowRemoves(clean, k);
      var p := SlotOf(it);
      OneMoreStuck(from, clean.bin, stuck, p);
      RemoveTrashed(p, stuck);
      DeleteTrash(it.id);
    }

    /** The first due row expires: a step of the purge. */
    method ExpireFirst(it: TrashRow, stuck: set<Path>, ghost cutoff: int, ghost clean: State,
                       ghost from: map<Path, Bytes>)
      returns (ghost next: State)
      requires Follows(clean, from, stuck) && DueRows(rows, cutoff) != [] && it == DueRows(rows, cutoff)[0]
      modifies this`bin, this`rows, this`contents
      ensures Follows(next, from, stuck) && |rows| == |old(rows)| - 1
      ensures DueRows(rows, cutoff) == old(DueRows(rows, cutoff))[1..]
      ensures Purges(next) && Purges(clean) && Purge(next, cutoff) == Purge(clean, cutoff)
    {
      ghost var k := FirstDue(rows, cutoff);
      DueFirst(rows, cutoff);
      PurgeFilters(clean, cutoff);
      ExpireRow(it, k, stuck, clean, from);
      next := DropRow(clean, k);
      PurgeFilters(next, cutoff);
    }

    /** One batch of Cleanup. */
    method ExpireBatch(due: seq<TrashRow>, stuck: set<Path>, ghost cutoff: int, ghost clean: State,
                       ghost from: map<Path, Bytes>)
      returns (expired: nat, ghost next: State)
      requires Follows(clean, from, stuck) && due <= DueRows(rows, cutoff) && Purges(clean)
      modifies this`bin, this`rows, this`contents
      ensures Follows(next, from, stuck) && Purges(next) && Purge(next, cutoff) == Purge(clean, cutoff)
      ensures expired == |due| && |rows| == |old(rows)| - |due|
      ensures |due| + |DueRows(rows, cutoff)| == old(|DueRows(rows, cutoff)|)
    {
      expired, next := 0, clean;
      ghost var left := DueRows(rows, cutoff);
      for j := 0 to |due|
        invariant Follows(next, from, stuck) && Purges(next) && Purge(next, cutoff) == Purge(clean, cutoff)
        invariant expired == j && DueRows(rows, cutoff) == left[j..] && |rows| == |old(rows)| - j
      {
        assert due[j] == left[j] && left[j..][1..] == left[j + 1..];
        next := ExpireFirst(due[j], stuck, cutoff, next, from);
        expired := expired + 1;
      }
    }

    /**
     * Cleanup: batches of due rows, each row's file and then the row itself deleted, until none is due. The
     * files at the paths `stuck` cannot be removed, which is logged and otherwise ignored.
     */
    method Cleanup(cutoff: int, limit: nat, stuck: set<Path>) returns (purged: nat)
      requires limit > 0 && Inv(St())
      modifies this
      ensures Purges(old(St())) && St() == PurgedBut(old(St()), cutoff, stuck)
      ensures purged == |DueRows(old(rows), cutoff)|
    {
      ghost var clean, from := St(), bin;
      PurgeFilters(clean, cutoff);
      StuckFromStart(bin, stuck);
      purged := 0;
      ghost var total := |DueRows(rows, cutoff)|;
      while true
        invariant Follows(clean, from, stuck) && Purges(clean)
        invariant Purge(clean, cutoff) == Purge(old(St()), cutoff)
        invariant purged + |DueRows(rows, cutoff)| == total
        decreases |rows|
      {
        var due := SelectTrashDue(cutoff, limit);
        DueFirst(rows, cutoff);
        if |due| == 0 {
          break;
        }
        var expired;
        expired, clean := ExpireBatch(due, stuck, cutoff, clean, from);
        purged := purged + expired;
      }
    }

    /** SelectTrashBatch: any `limit` of the index rows whose key is not listed (all of them if fewer). */
    method SelectTrashBatch(listed: set<string>, limit: nat) returns (batch: seq<Path>)
      ensures Distinct(batch) && SetOf(batch) <= Missing(index, listed, norm)
      ensures |batch| == Min(limit, |Missing(index, listed, norm)|)
    {
      batch := [];
      var left := set r | r in index && norm(r) !in listed;
      while |batch| < limit && left != {}
        invariant Distinct(batch) && SetOf(batch) + left == Missing(index, listed, norm) && SetOf(batch) !! left
        invariant |batch| + |left| == |Missing(index, listed, norm)| && |batch| <= limit
        decreases |left|
      {
        var r :| r in left;
        OneMoreSelected(batch, left, r);
        batch, left := batch + [r], left - {r};
      }
    }

    method AttemptOne(j: Job, fails: map<Path, Failure>) returns (ok: bool)
      modifies this
      ensures St() == Attempt(old(St()), j, fails, norm) && ok == (j.rel !in fails)
    {
      ok := MoveOneFile(j.rel, j.size, j.now, if j.rel in fails then Some(fails[j.rel]) else None);
      if !ok {
        DeleteFileByNorm(norm(j.rel));
      }
    }

    /** One batch of attempts; `progress` counts the successful ones. */
    method MoveBatch(batch: seq<Path>, fails: map<Path, Failure>, clock: nat -> int, k: nat) returns (progress: nat)
      requires Distinct(batch) && Sized(batch, index)
      modifies this
      ensures St() == MoveAll(old(St()), Jobs(batch, old(index), clock, k), Attempting(fails, norm))
      ensures progress == |SetOf(batch) - fails.Keys|
    {
      progress := 0;
      var sizes := index;
      ghost var s0 := St();
      BatchBegins(s0, batch, sizes, clock, k, fails, norm);
      for j := 0 to |batch|
        invariant InBatch(s0, St(), batch, j, progress, sizes, clock, k, fails, norm)
      {
        BatchGoesOn(s0, St(), batch, j, progress, sizes, clock, k, fails, norm);
        var ok := AttemptOne(Move(batch[j], sizes[batch[j]], clock(k + j)), fails);
        if ok {
          progress := progress + 1;
        }
      }
      BatchEnds(s0, St(), batch, progress, sizes, clock, k, fails, norm);
    }

    /**
     * MoveDeleted: batches of missing rows, each moved; a failing move drops its index row and is
     * not counted; a batch without progress ends the loop. `order` is the order of the attempts.
     */
    method MoveDeleted(listed: set<string>, limit: nat, fails: map<Path, Failure>, clock: nat -> int)
      returns (moved: nat, ghost order: seq<Path>)
      requires limit > 0 && forall r | r in index :: r != []
      modifies this
      ensures Sized(order, old(index)) && Distinct(order)
      ensures SetOf(order) <= Missing(old(index), listed, norm)
      ensures St() == Attempted(old(St()), order, old(index), clock, fails, norm)
      ensures moved == |SetOf(order) - fails.Keys|
      ensures Missing(old(index), listed, norm) !! fails.Keys ==>
                Missing(index, listed, norm) == {} && Makes(old(index), order, listed, limit, norm)
    {
      moved, order := 0, [];
      ghost var s0 := St();
      var k := 0;
      assert SetOf(order) - fails.Keys == {};
      assert index == Remaining(index, order, norm);
      LeadsFromStart(index, listed, limit, norm);
      while true
        invariant k == |order| && Tried(s0, St(), order, moved, listed, clock, fails, norm)
        invariant Leads(s0.index, order, index, listed, limit, norm)
        decreases |Missing(index, listed, norm)|
      {
        var batch := SelectTrashBatch(listed, limit);
        if |batch| == 0 {
          LeadsToEnd(s0.index, order, index, listed, limit, norm);
          break;
        }
        ghost var before := St();
        BatchIsFresh(index, s0.index, order, batch, listed, norm);
        var progress := MoveBatch(batch, fails, clock, k);
        AfterBatch(s0, before, St(), order, batch, moved, progress, listed, clock, fails, norm);
        LeadsOn(s0.index, order, before.index, index, batch, listed, limit, norm);
        moved, k, order := moved + progress, k + |batch|, order + batch;
        if progress == 0 {
          break;
        }
      }
    }
  }

  /** The state after the first j attempts of a batch, `progress` of which succeeded. */
  ghost predicate InBatch(s0: State, s: State, batch: seq<Path>, j: nat, progress: nat, sizes: map<Path, nat>,
                          clock: nat -> int, k: nat, fails: map<Path, Failure>, norm: Path -> string)
    requires j <= |batch| && Sized(batch, sizes)
  {
    && s == MoveAll(s0, Jobs(batch[..j], sizes, clock, k), Attempting(fails, norm))
    && progress == |SetOf(batch[..j]) - fails.Keys|
  }

  lemma BatchBegins(s0: State, batch: seq<Path>, sizes: map<Path, nat>, clock: nat -> int, k: nat,
                    fails: map<Path, Failure>, norm: Path -> string)
    requires Sized(batch, sizes)
    ensures InBatch(s0, s0, batch, 0, 0, sizes, clock, k, fails, norm)
  {
    assert SetOf(batch[..0]) - fails.Keys == {};
  }

  lemma BatchEnds(s0: State, s: State, batch: seq<Path>, progress: nat, sizes: map<Path, nat>,
                  clock: nat -> int, k: nat, fails: map<Path, Failure>, norm: Path -> string)
    requires Sized(batch, sizes) && InBatch(s0, s, batch, |batch|, progress, sizes, clock, k, fails, norm)
    ensures s == MoveAll(s0, Jobs(batch, sizes, clock, k), Attempting(fails, norm))
    ensures progress == |SetOf(batch) - fails.Keys|
  {
    assert batch[..|batch|] == batch;
  }

  lemma BatchGoesOn(s0: State, s: State, batch: seq<Path>, j: nat, progress: nat, sizes: map<Path, nat>,
                    clock: nat -> int, k: nat, fails: map<Path, Failure>, norm: Path -> string)
    requires j < |batch| && Sized(batch, sizes) && Distinct(batch)
    requires InBatch(s0, s, batch, j, progress, sizes, clock, k, fails, norm)
    ensures InBatch(s0, Attempt(s, Move(batch[j], sizes[batch[j]], clock(k + j)), fails, norm), batch, j + 1,
                    progress + if batch[j] in fails then 0 else 1, sizes, clock, k, fails, norm)
  {
    var job := Move(batch[j], sizes[batch[j]], clock(k + j));
    JobsLast(batch, j, sizes, clock, k);
    MoveAllLast(s0, Jobs(batch[..j], sizes, clock, k), job, Attempting(fails, norm));
    CountLast(batch, j, fails.Keys, norm);
  }

  /** The state after the attempts in `order`, `moved` of which succeeded, starting from s0. */
  ghost predicate Tried(s0: State, s: State, order: seq<Path>, moved: nat, listed: set<string>, clock: nat -> int,
                        fails: map<Path, Failure>, norm: Path -> string) {
    && (forall r | r in s0.index :: r != [])
    && Sized(order, s0.index) && Distinct(order) && SetOf(order) <= Missing(s0.index, listed, norm)
    && s == Attempted(s0, order, s0.index, clock, fails, norm)
    && s.index == Remaining(s0.index, order, norm)
    && moved == |SetOf(order) - fails.Keys|
  }

  lemma OneMoreSelected(batch: seq<Path>, left: set<Path>, r: Path)
    requires Distinct(batch) && SetOf(batch) !! left && r in left
    ensures Distinct(batch + [r]) && SetOf(batch + [r]) == SetOf(batch) + {r} && SetOf(batch + [r]) !! left - {r}
    ensures SetOf(batch + [r]) + (left - {r}) == SetOf(batch) + left && |left - {r}| == |left| - 1
  {
  }

  lemma AfterBatch(s0: State, before: State, after: State, order: seq<Path>, batch: seq<Path>, moved: nat,
                   progress: nat,
                   listed: set<string>, clock: nat -> int, fails: map<Path, Failure>, norm: Path -> string)
    requires Tried(s0, before, order, moved, listed, clock, fails, norm)
    requires batch != [] && Distinct(batch) && Sized(batch, before.index)
             && SetOf(batch) <= Missing(before.index, listed, norm)
    requires after == MoveAll(before, Jobs(batch, before.index, clock, |order|), Attempting(fails, norm))
    requires progress == |SetOf(batch) - fails.Keys|
    ensures Tried(s0, after, order + batch, moved + progress, listed, clock, fails, norm)
    ensures |Missing(after.index, listed, norm)| < |Missing(before.index, listed, norm)|
    ensures after.index == Remaining(before.index, batch, norm)
    ensures progress == 0 ==> !(Missing(s0.index, listed, norm) !! fails.Keys)
  {
    TriedExtends(s0, before, after, order, batch, moved, progress, listed, clock, fails, norm);
    BatchIsFresh(before.index, s0.index, order, batch, listed, norm);
    MissingShrinks(s0.index, order, batch, listed, norm);
    RemainingTwice(s0.index, order, batch, norm);
    if progress == 0 {
      NoProgress(batch, fails.Keys, s0.index, listed, norm);
    }
  }

  lemma TriedExtends(s0: State, before: State, after: State, order: seq<Path>, batch: seq<Path>, moved: nat,
                     progress: nat,
                     listed: set<string>, clock: nat -> int, fails: map<Path, Failure>, norm: Path -> string)
    requires Tried(s0, before, order, moved, listed, clock, fails, norm)
    requires Distinct(batch) && Sized(batch, before.index) && SetOf(batch) <= Missing(before.index, listed, norm)
    requires after == MoveAll(before, Jobs(batch, before.index, clock, |order|), Attempting(fails, norm))
    requires progress == |SetOf(batch) - fails.Keys|
    ensures Tried(s0, after, order + batch, moved + progress, listed, clock, fails, norm)
  {
    BatchIsFresh(before.index, s0.index, order, batch, listed, norm);
    UnionCount(order, batch, fails.Keys);
    TriedState(s0, before, after, order, batch, clock, fails, norm);
  }

  lemma TriedState(s0: State, before: State, after: State, order: seq<Path>, batch: seq<Path>,
                   clock: nat -> int, fails: map<Path, Failure>, norm: Path -> string)
    requires Sized(order, s0.index) && before == MoveAll(s0, Jobs(order, s0.index, clock, 0), Attempting(fails, norm))
    requires Sized(batch, s0.index) && Sized(batch, before.index)
    requires forall i | 0 <= i < |batch| :: before.index[batch[i]] == s0.index[batch[i]]
    requires after == MoveAll(before, Jobs(batch, before.index, clock, |order|), Attempting(fails, norm))
    ensures Sized(order + batch, s0.index)
            && after == MoveAll(s0, Jobs(order + batch, s0.index, clock, 0), Attempting(fails, norm))
    ensures after.index == Remaining(s0.index, order + batch, norm)
  {
    TriedConcat(s0, before, order, batch, clock, Attempting(fails, norm));
    MoveAllIndex(s0, order + batch, s0.index, clock, 0, fails, norm);
  }

  lemma TriedConcat(s0: State, before: State, order: seq<Path>, batch: seq<Path>, clock: nat -> int,
                    step: (State, Job) -> State)
    requires Sized(order, s0.index) && before == MoveAll(s0, Jobs(order, s0.index, clock, 0), step)
    requires Sized(batch, s0.index) && Sized(batch, before.index)
    requires forall i | 0 <= i < |batch| :: before.index[batch[i]] == s0.index[batch[i]]
    ensures Sized(order + batch, s0.index)
    ensures MoveAll(before, Jobs(batch, before.index, clock, |order|), step)
            == MoveAll(s0, Jobs(order + batch, s0.index, clock, 0), step)
  {
    JobsConcat(order, batch, s0.index, before.index, clock);
    MoveAllConcat(s0, Jobs(order, s0.index, clock, 0), Jobs(batch, before.index, clock, |order|), step);
  }

  /** A batch selected from the current index repeats no earlier attempt. */
  lemma BatchIsFresh(index: map<Path, nat>, sizes: map<Path, nat>, order: seq<Path>, batch: seq<Path>,
                     listed: set<string>, norm: Path -> string)
    requires index == Remaining(sizes, order, norm)
    requires forall r | r in sizes :: r != []
    requires Distinct(order) && Distinct(batch) && SetOf(batch) <= Missing(index, listed, norm)
    ensures Sized(batch, index) && Sized(batch, sizes)
            && forall i | 0 <= i < |batch| :: index[batch[i]] == sizes[batch[i]]
    ensures Distinct(order + batch) && SetOf(batch) !! SetOf(order) && SetOf(batch) <= Missing(sizes, listed, norm)
    ensures SetOf(order + batch) == SetOf(order) + SetOf(batch)
  {
    forall i | 0 <= i < |batch|
      ensures batch[i] in index && batch[i] !in order
    {
      assert batch[i] in SetOf(batch);
    }
  }

  lemma UnionCount(order: seq<Path>, batch: seq<Path>, fails: set<Path>)
    requires SetOf(batch) !! SetOf(order)
    ensures |SetOf(order + batch) - fails| == |SetOf(order) - fails| + |SetOf(batch) - fails|
  {
    assert SetOf(order + batch) - fails == (SetOf(order) - fails) + (SetOf(batch) - fails);
  }

  lemma MissingShrinks(sizes: map<Path, nat>, order: seq<Path>, batch: seq<Path>, listed: set<string>,
                       norm: Path -> string)
    requires batch != []
    requires SetOf(batch) <= set r | r in sizes && norm(r) !in KeysOf(order, norm) && norm(r) !in listed
    ensures var before := Remaining(sizes, order, norm);
            var after := Remaining(sizes, order + batch, norm);
            |Missing(after, listed, norm)| < |Missing(before, listed, norm)|
  {
    var before := Remaining(sizes, order, norm);
    var after := Remaining(sizes, order + batch, norm);
    assert batch[0] in SetOf(batch) && batch[0] in order + batch;
    assert batch[0] in Missing(before, listed, norm) && batch[0] !in Missing(after, listed, norm);
    forall r | r in Missing(after, listed, norm)
      ensures r in Missing(before, listed, norm)
    {
      assert KeysOf(order, norm) <= KeysOf(order + batch, norm);
    }
    CardinalityDecreases(Missing(after, listed, norm), Missing(before, listed, norm));
  }

  lemma NoProgress(batch: seq<Path>, fails: set<Path>, sizes: map<Path, nat>, listed: set<string>, norm: Path -> string)
    requires batch != [] && |SetOf(batch) - fails| == 0 && SetOf(batch) <= Missing(sizes, listed, norm)
    ensures !(Missing(sizes, listed, norm) !! fails)
  {
    assert batch[0] in SetOf(batch);
    assert batch[0] !in SetOf(batch) - fails;
  }

  lemma {:induction false} CardinalityDecreases<T>(a: set<T>, b: set<T>)
    requires a < b
    ensures |a| < |b|
  {
    var x :| x in b && x !in a;
    SubsetCardinality(a, b - {x});
  }

  lemma {:induction false} SubsetCardinality<T>(a: set<T>, b: set<T>)
    requires a <= b
    ensures |a| <= |b|
  {
    if a != {} {
      var x :| x in a;
      SubsetCardinality(a - {x}, b - {x});
    }
  }

  /** Every stored file among the attempts has its entry, and there is no other entry. */
  lemma {:induction false} AppendedMembers(storage: map<Path, Bytes>, order: seq<Path>, sizes: map<Path, nat>,
                                           clock: nat -> int, rel: Path)
    requires Sized(order, sizes)
    ensures (exists e :: e in AppendedAll(storage, order, sizes, clock, {}) && e.rel == rel
                         && rel in storage && rel in sizes && e.size == sizes[rel] && e.content == storage[rel]
                            && e.present)
      <==> rel in order && rel in storage
    ensures forall e | e in AppendedAll(storage, order, sizes, clock, {}) :: e.rel in order && e.rel in storage
  {
    if order != [] {
      var n := |order| - 1;
      AppendedMembers(storage, order[..n], sizes, clock, rel);
      assert order == order[..n] + [order[n]];
      if rel == order[n] && rel in storage {
        assert Appended(storage, rel, sizes[rel], clock(n))[0] in AppendedAll(storage, order, sizes, clock, {});
      }
    }
  }

  // ---- Which orders of attempts there are ----

  /**
   * MoveDeleted can make its attempts in this order when none fails: batch after batch of `limit` distinct
   * missing rows (all of them if fewer), until none is missing.
   */
  ghost predicate Makes(index: map<Path, nat>, order: seq<Path>, listed: set<string>, limit: nat, norm: Path -> string)
    decreases |order|
  {
    var n := Min(limit, |Missing(index, listed, norm)|);
    if n == 0 then order == []
    else && n <= |order| && Distinct(order[..n]) && SetOf(order[..n]) <= Missing(index, listed, norm)
         && Makes(Remaining(index, order[..n], norm), order[n..], listed, limit, norm)
  }

  lemma RemainingTwice(index: map<Path, nat>, a: seq<Path>, b: seq<Path>, norm: Path -> string)
    ensures Remaining(Remaining(index, a, norm), b, norm) == Remaining(index, a + b, norm)
  {
    assert KeysOf(a + b, norm) == KeysOf(a, norm) + KeysOf(b, norm);
  }

  /** After the attempts in `order` from index i0, whatever order can be made from the index i now completes it. */
  ghost predicate Leads(i0: map<Path, nat>, order: seq<Path>, i: map<Path, nat>, listed: set<string>, limit: nat,
                        norm: Path -> string) {
    forall rest | Makes(i, rest, listed, limit, norm) :: Makes(i0, order + rest, listed, limit, norm)
  }

  lemma LeadsFromStart(i0: map<Path, nat>, listed: set<string>, limit: nat, norm: Path -> string)
    ensures Leads(i0, [], i0, listed, limit, norm)
  {
    assert forall rest: seq<Path> :: [] + rest == rest;
  }

  lemma LeadsOn(i0: map<Path, nat>, order: seq<Path>, before: map<Path, nat>, after: map<Path, nat>, batch: seq<Path>,
                listed: set<string>, limit: nat, norm: Path -> string)
    requires Leads(i0, order, before, listed, limit, norm) && after == Remaining(before, batch, norm)
    requires |batch| == Min(limit, |Missing(before, listed, norm)|) > 0 && Distinct(batch)
    requires SetOf(batch) <= Missing(before, listed, norm)
    ensures Leads(i0, order + batch, after, listed, limit, norm)
  {
    forall rest | Makes(after, rest, listed, limit, norm)
      ensures Makes(i0, order + batch + rest, listed, limit, norm)
    {
      MakesBatch(before, batch, rest, listed, limit, norm);
      assert order + (batch + rest) == order + batch + rest;
    }
  }

  lemma LeadsToEnd(i0: map<Path, nat>, order: seq<Path>, i: map<Path, nat>, listed: set<string>, limit: nat,
                   norm: Path -> string)
    requires Leads(i0, order, i, listed, limit, norm) && Min(limit, |Missing(i, listed, norm)|) == 0
    ensures Makes(i0, order, listed, limit, norm)
  {
    assert Makes(i, [], listed, limit, norm);
    assert order + [] == order;
  }

  /** Whatever the order, in the end nothing missing is indexed and only missing rows were attempted, each once. */
  lemma {:induction false} MakesClears(index: map<Path, nat>, order: seq<Path>, listed: set<string>, limit: nat,
                                       norm: Path -> string)
    requires limit > 0 && Makes(index, order, listed, limit, norm) && forall r | r in index :: r != []
    ensures Distinct(order) && Sized(order, index) && SetOf(order) <= Missing(index, listed, norm)
    ensures Missing(Remaining(index, order, norm), listed, norm) == {}
    decreases |order|
  {
    var n := Min(limit, |Missing(index, listed, norm)|);
    if n > 0 {
      var batch, rest := order[..n], order[n..];
      var left := Remaining(index, batch, norm);
      MakesClears(left, rest, listed, limit, norm);
      BatchIsFresh(left, index, batch, rest, listed, norm);
      assert Remaining(index, batch, norm) == left;
      assert order == batch + rest;
      RemainingTwice(index, batch, rest, norm);
      forall i | 0 <= i < |batch|
        ensures batch[i] in index
      {
        assert batch[i] in SetOf(batch);
      }
    }
  }

  /** No key of a missing row is the key of one that is listed, so exactly the missing rows leave the index. */
  lemma OnlyMissingGo(index: map<Path, nat>, order: seq<Path>, listed: set<string>, norm: Path -> string)
    requires SetOf(order) <= Missing(index, listed, norm) && Missing(Remaining(index, order, norm), listed, norm) == {}
    ensures Remaining(index, order, norm).Keys == index.Keys - Missing(index, listed, norm)
  {
    var after := Remaining(index, order, norm);
    forall r | r in index && norm(r) in KeysOf(order, norm)
      ensures norm(r) !in listed
    {
      var q :| q in order && norm(q) == norm(r);
      assert q in SetOf(order);
    }
    forall r | r in after
      ensures norm(r) in listed
    {
      assert norm(r) !in listed ==> r in Missing(after, listed, norm);
    }
  }

  /**
   * What MoveDeleted does when no move fails, for every batch limit and every order it can choose: exactly
   * the missing rows leave the index, and the files attempted leave the storage, each stored one with its
   * entry in the ledger.
   */
  lemma BatchesTrash(s: State, order: seq<Path>, listed: set<string>, limit: nat, clock: nat -> int,
                     norm: Path -> string)
    requires Inv(s) && limit > 0 && Makes(s.index, order, listed, limit, norm)
    requires forall r | r in s.index :: r != [] && !LooksLikeSlot(r)
    ensures Sized(order, s.index)
    ensures var t := Attempted(s, order, s.index, clock, map[], norm);
            && t.index.Keys == s.index.Keys - Missing(s.index, listed, norm) && t.storage == s.storage - SetOf(order)
            && Inv(t) && Ledger(t) == Ledger(s) + AppendedAll(s.storage, order, s.index, clock, {})
  {
    MakesClears(s.index, order, listed, limit, norm);
    NoneFails(s, order, clock, norm);
    MoveAllIndex(s, order, s.index, clock, 0, map[], norm);
    OnlyMissingGo(s.index, order, listed, norm);
  }

  lemma NoneFails(s: State, order: seq<Path>, clock: nat -> int, norm: Path -> string)
    requires Inv(s) && Distinct(order) && Sized(order, s.index) && forall r | r in s.index :: !LooksLikeSlot(r)
    ensures var t := Attempted(s, order, s.index, clock, map[], norm);
            && t.storage == s.storage - SetOf(order)
            && Inv(t) && Ledger(t) == Ledger(s) + AppendedAll(s.storage, order, s.index, clock, {})
  {
    var none: map<Path, Failure> := map[];
    assert none.Keys == {} && SetOf(order) - {} == SetOf(order);
    MoveAllAppends(s, order, s.index, clock, none, norm);
  }

  lemma {:induction false} Pick(from: set<Path>, n: nat) returns (batch: seq<Path>)
    requires n <= |from|
    ensures |batch| == n && Distinct(batch) && SetOf(batch) <= from
  {
    if n == 0 {
      batch := [];
    } else {
      var p :| p in from;
      var rest := Pick(from - {p}, n - 1);
      assert forall i | 0 <= i < |rest| :: rest[i] in SetOf(rest);
      batch := [p] + rest;
    }
  }

  lemma MakesBatch(index: map<Path, nat>, batch: seq<Path>, rest: seq<Path>, listed: set<string>, limit: nat,
                   norm: Path -> string)
    requires |batch| == Min(limit, |Missing(index, listed, norm)|) > 0 && Distinct(batch)
    requires SetOf(batch) <= Missing(index, listed, norm)
             && Makes(Remaining(index, batch, norm), rest, listed, limit, norm)
    ensures Makes(index, batch + rest, listed, limit, norm)
  {
    assert (batch + rest)[..|batch|] == batch && (batch + rest)[|batch|..] == rest;
  }

  lemma FewerMissing(index: map<Path, nat>, batch: seq<Path>, listed: set<string>, norm: Path -> string)
    requires batch != [] && SetOf(batch) <= Missing(index, listed, norm)
    ensures |Missing(Remaining(index, batch, norm), listed, norm)| < |Missing(index, listed, norm)|
  {
    assert batch[0] in SetOf(batch);
    CardinalityDecreases(Missing(Remaining(index, batch, norm), listed, norm), Missing(index, listed, norm));
  }

  /** There is always some order. */
  lemma {:induction false} SomeOrder(index: map<Path, nat>, listed: set<string>, limit: nat, norm: Path -> string)
    returns (order: seq<Path>)
    requires limit > 0
    ensures Makes(index, order, listed, limit, norm)
    decreases |Missing(index, listed, norm)|
  {
    var n := Min(limit, |Missing(index, listed, norm)|);
    if n == 0 {
      order := [];
    } else {
      var batch := Pick(Missing(index, listed, norm), n);
      FewerMissing(index, batch, listed, norm);
      var rest := SomeOrder(Remaining(index, batch, norm), listed, limit, norm);
      MakesBatch(index, batch, rest, listed, limit, norm);
      order := batch + rest;
    }
  }

  /** A row whose key goes with an earlier batch is never attempted. */
  lemma LeftBehind(index: map<Path, nat>, listed: set<string>, limit: nat, norm: Path -> string, p: Path, q: Path)
    returns (order: seq<Path>)
    requires 0 < limit < |Missing(index, listed, norm)| && forall r | r in index :: r != []
    requires p in Missing(index, listed, norm) && q in Missing(index, listed, norm) && p != q && norm(p) == norm(q)
    ensures Makes(index, order, listed, limit, norm) && q !in order
  {
    var missing := Missing(index, listed, norm);
    var others := Pick(missing - {p, q}, limit - 1);
    assert forall i | 0 <= i < |others| :: others[i] in SetOf(others);
    var batch := [p] + others;
    var left := Remaining(index, batch, norm);
    assert p in batch && norm(q) in KeysOf(batch, norm);
    var rest := SomeOrder(left, listed, limit, norm);
    MakesBatch(index, batch, rest, listed, limit, norm);
    MakesClears(left, rest, listed, limit, norm);
    assert q in rest ==> q in SetOf(rest);
    order := batch + rest;
  }

  /** A missing row that is not attempted lost its index row to another one with its key, in an earlier batch. */
  lemma SkippedSharesKey(index: map<Path, nat>, order: seq<Path>, listed: set<string>, limit: nat,
                         norm: Path -> string, q: Path)
    returns (p: Path)
    requires limit > 0 && Makes(index, order, listed, limit, norm) && forall r | r in index :: r != []
    requires q in Missing(index, listed, norm) && q !in order
    ensures limit < |Missing(index, listed, norm)|
    ensures p in Missing(index, listed, norm) && p != q && norm(p) == norm(q)
  {
    MakesClears(index, order, listed, limit, norm);
    assert q in Remaining(index, order, norm) ==> q in Missing(Remaining(index, order, norm), listed, norm);
    p :| p in order && norm(p) == norm(q);
    assert p in SetOf(order);
    if limit >= |Missing(index, listed, norm)| {
      OneBatchTakesAll(index, order, listed, limit, norm);
    }
  }

  lemma OneBatchTakesAll(index: map<Path, nat>, order: seq<Path>, listed: set<string>, limit: nat, norm: Path -> string)
    requires limit >= |Missing(index, listed, norm)| && Makes(index, order, listed, limit, norm)
    ensures forall r | r in Missing(index, listed, norm) :: r in order
  {
    var n := |Missing(index, listed, norm)|;
    if n > 0 {
      AllPicked(order[..n], Missing(index, listed, norm));
      forall r | r in Missing(index, listed, norm)
        ensures r in order
      {
        assert r in SetOf(order[..n]);
      }
    }
  }

  lemma {:induction false} AllPicked(batch: seq<Path>, from: set<Path>)
    requires Distinct(batch) && SetOf(batch) <= from && |batch| == |from|
    ensures SetOf(batch) == from
  {
    if batch != [] {
      var n := |batch| - 1;
      var init, last := batch[..n], batch[n];
      assert last in SetOf(batch) && last !in init;
      assert forall i | 0 <= i < n :: init[i] in SetOf(batch);
      AllPicked(init, from - {last});
      assert SetOf(batch) == SetOf(init) + {last};
    }
  }

  /** Some stored file's row is missing together with another row of its key. */
  ghost predicate StoredTwin(s: State, listed: set<string>, norm: Path -> string) {
    var missing := Missing(s.index, listed, norm);
    exists p, q :: p in missing && q in missing && p != q && norm(p) == norm(q) && q in s.storage
  }

  /** The attempts in this order take exactly the files of the missing rows out of the storage. */
  ghost predicate TakesExactly(s: State, order: seq<Path>, listed: set<string>, clock: nat -> int,
                               norm: Path -> string) {
    Sized(order, s.index)
    && Attempted(s, order, s.index, clock, map[], norm).storage == s.storage - Missing(s.index, listed, norm)
  }

  lemma TakesExactlyIff(s: State, order: seq<Path>, listed: set<string>, limit: nat, clock: nat -> int,
                        norm: Path -> string)
    requires Inv(s) && limit > 0 && Makes(s.index, order, listed, limit, norm)
    requires forall r | r in s.index :: r != [] && !LooksLikeSlot(r)
    ensures TakesExactly(s, order, listed, clock, norm)
            <==> forall q | q in Missing(s.index, listed, norm) && q in s.storage :: q in order
  {
    BatchesTrash(s, order, listed, limit, clock, norm);
    MakesClears(s.index, order, listed, limit, norm);
    StorageLess(s.storage, SetOf(order), Missing(s.index, listed, norm));
  }

  lemma StorageLess(storage: map<Path, Bytes>, a: set<Path>, b: set<Path>)
    requires a <= b
    ensures storage - a == storage - b <==> forall q | q in b && q in storage :: q in a
  {
    if storage - a == storage - b {
      forall q | q in b && q in storage
        ensures q in a
      {
        assert q !in storage - b;
      }
    }
  }

  /**
   * "Exactly the files of the missing rows leave the storage", for every order MoveDeleted can choose:
   * that holds if and only if one batch takes all missing rows, or no stored file's row shares its key
   * with another missing row. Otherwise some order leaves a file in the storage with no row anywhere.
   */
  lemma BatchedEqualsOneShotIff(s: State, listed: set<string>, limit: nat, clock: nat -> int, norm: Path -> string)
    requires Inv(s) && limit > 0 && forall r | r in s.index :: r != [] && !LooksLikeSlot(r)
    ensures (forall order | Makes(s.index, order, listed, limit, norm) :: TakesExactly(s, order, listed, clock, norm))
      <==> limit >= |Missing(s.index, listed, norm)| || !StoredTwin(s, listed, norm)
  {
    var missing := Missing(s.index, listed, norm);
    if limit < |missing| && StoredTwin(s, listed, norm) {
      var p, q :| p in missing && q in missing && p != q && norm(p) == norm(q) && q in s.storage;
      var order := LeftBehind(s.index, listed, limit, norm, p, q);
      TakesExactlyIff(s, order, listed, limit, clock, norm);
    } else {
      forall order | Makes(s.index, order, listed, limit, norm)
        ensures TakesExactly(s, order, listed, clock, norm)
      {
        TakesExactlyIff(s, order, listed, limit, clock, norm);
        forall q | q in missing && q in s.storage
          ensures q in order
        {
          if q !in order {
            var p := SkippedSharesKey(s.index, order, listed, limit, norm, q);
          }
        }
      }
    }
  }

  /** An input that shows it: two spellings of one key, both stored and both missing, taken one a batch. */
  lemma TwinIsLeftBehind(p: Path, q: Path, x: Bytes, y: Bytes, clock: nat -> int, norm: Path -> string)
    requires p != [] && q != [] && p != q && norm(p) == norm(q)
    ensures var s := State(map[p := x, q := y], map[], [], [], map[p := |x|, q := |y|]);
            var t := Attempted(s, [p], s.index, clock, map[], norm);
            Makes(s.index, [p], {}, 1, norm) && t.storage == map[q := y] && t.index == map[]
              && forall r | r in t.rows :: r.rel == p
  {
    var s := State(map[p := x, q := y], map[], [], [], map[p := |x|, q := |y|]);
    TwinOrder(p, q, s.index, norm);
    OneAttempt(s, p, clock, norm);
    MovesFirst(s, p, |x|, clock(0), norm);
    assert s.storage - {p} == map[q := y] && DropKey(s.index, norm, norm(p)) == map[];
  }

  lemma OneAttempt(s: State, p: Path, clock: nat -> int, norm: Path -> string)
    requires p != [] && p in s.index
    ensures Attempted(s, [p], s.index, clock, map[], norm) == MoveOne(s, p, s.index[p], clock(0), norm)
  {
    AttemptedLast(s, [p], s.index, clock, map[], norm);
    assert [p][..0] == [];
  }

  /** The first file that comes to an empty trash. */
  lemma MovesFirst(s: State, p: Path, size: nat, now: int, norm: Path -> string)
    requires p != [] && p in s.storage && s.bin == map[] && s.rows == []
    ensures var t := MoveOne(s, p, size, now, norm);
            && t.storage == s.storage - {p} && t.index == DropKey(s.index, norm, norm(p))
            && t.rows == [TrashRow(1, p, 0, size, now)]
  {
  }

  lemma TwinOrder(p: Path, q: Path, index: map<Path, nat>, norm: Path -> string)
    requires p != q && norm(p) == norm(q) && index.Keys == {p, q}
    ensures Makes(index, [p], {}, 1, norm)
  {
    assert Missing(index, {}, norm) == {p, q} && p in [p];
    assert Remaining(index, [p], norm) == map[];
    assert Makes(map[], [], {}, 1, norm);
    MakesBatch(index, [p], [], {}, 1, norm);
    assert [p] + [] == [p];
  }
}
