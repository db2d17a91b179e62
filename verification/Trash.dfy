/**
 * The versioned trash. A deleted file moves to the canonical slot of its path; whatever was there
 * goes to the next numbered slot. The rows and the files on disk are shown to refine a plain
 * append-only ledger of what was trashed.
 */
module Trash {
  import opened Basics
  import opened TrashPaths

  /** A row of the trash table. */
  datatype TrashRow = TrashRow(id: nat, rel: Path, version: nat, size: nat, at: int)

  /**
   * Storage and trash directories, the trash table, and the file index (path and size). `contents`
   * runs beside `rows`: the bytes each row was created for.
   */
  datatype State = State(storage: map<Path, Bytes>, bin: map<Path, Bytes>,
                         rows: seq<TrashRow>, contents: seq<Bytes>, index: map<Path, nat>)

  // ---- Queries ----

  predicate HasCanonical(rows: seq<TrashRow>, rel: Path) {
    exists i | 0 <= i < |rows| :: rows[i].rel == rel && rows[i].version == 0
  }

  function MaxVersion(rows: seq<TrashRow>, rel: Path): (m: nat)
    ensures forall r | r in rows && r.rel == rel :: r.version <= m
  {
    if rows == [] then 0
    else
      var m := MaxVersion(rows[..|rows| - 1], rel);
      var r := rows[|rows| - 1];
      assert rows == rows[..|rows| - 1] + [r];
      if r.rel == rel && r.version > m then r.version else m
  }

  function NextId(rows: seq<TrashRow>): nat {
    if rows == [] then 1 else rows[|rows| - 1].id + 1
  }

  function SlotOf(r: TrashRow): Path
    requires r.rel != []
  {
    Slot(r.rel, r.version)
  }

  // ---- Transitions ----

  /** The canonical row of rel becomes version n. */
  function BumpRow(r: TrashRow, rel: Path, n: nat): TrashRow {
    if r.rel == rel && r.version == 0 then r.(version := n) else r
  }

  function Bump(rows: seq<TrashRow>, rel: Path, n: nat): (b: seq<TrashRow>)
    ensures |b| == |rows| && forall i | 0 <= i < |rows| :: b[i] == BumpRow(rows[i], rel, n)
  {
    seq(|rows|, i requires 0 <= i < |rows| => BumpRow(rows[i], rel, n))
  }

  /** Index rows whose key is k are gone. */
  function DropKey(index: map<Path, nat>, norm: Path -> string, k: string): map<Path, nat> {
    map r | r in index && norm(r) != k :: index[r]
  }

  /** moveFile: whatever is at the destination is deleted first. */
  function MoveFile(bin: map<Path, Bytes>, src: Path, dst: Path): map<Path, Bytes>
    requires src in bin
  {
    (bin - {dst, src})[dst := bin[src]]
  }

  /** The canonical slot of rel is vacated into the next version. */
  function Vacate(s: State, rel: Path): State
    requires rel != []
  {
    if HasCanonical(s.rows, rel) || rel in s.bin then
      var n := MaxVersion(s.rows, rel) + 1;
      s.(bin := if rel in s.bin then MoveFile(s.bin, rel, Slot(rel, n)) else s.bin,
         rows := Bump(s.rows, rel, n))
    else s
  }

  /** One file moves from the storage to the trash. */
  function MoveOne(s: State, rel: Path, size: nat, now: int, norm: Path -> string): State
    requires rel != []
  {
    if rel !in s.storage then s.(index := DropKey(s.index, norm, norm(rel)))
    else
      var v := Vacate(s, rel);
      v.(storage := s.storage - {rel},
         bin := v.bin[rel := s.storage[rel]],
         index := DropKey(s.index, norm, norm(rel)),
         rows := v.rows + [TrashRow(NextId(v.rows), rel, 0, size, now)],
         contents := v.contents + [s.storage[rel]])
  }

  /** Row i expires: its file and then its row are deleted. */
  function DropRow(s: State, i: nat): State
    requires i < |s.rows| && i < |s.contents| && s.rows[i].rel != []
  {
    s.(bin := s.bin - {SlotOf(s.rows[i])},
       rows := s.rows[..i] + s.rows[i + 1..],
       contents := s.contents[..i] + s.contents[i + 1..])
  }

  /** Someone takes the file of row i out of the trash by hand; the row stays. */
  function Extract(s: State, i: nat): State
    requires i < |s.rows| && s.rows[i].rel != []
  {
    s.(bin := s.bin - {SlotOf(s.rows[i])})
  }

  // ---- Invariant ----

  /** Ids grow, no path looks like a slot, and rows are unique per (path, version). */
  ghost predicate GoodRows(rows: seq<TrashRow>) {
    && (forall i, j | 0 <= i < j < |rows| :: rows[i].id < rows[j].id)
    && (forall i | 0 <= i < |rows| :: rows[i].rel != [] && !LooksLikeSlot(rows[i].rel))
    && (forall i, j | 0 <= i < j < |rows| :: rows[i].rel != rows[j].rel || rows[i].version != rows[j].version)
  }

  function Slots(rows: seq<TrashRow>): (p: seq<Path>)
    requires forall i | 0 <= i < |rows| :: rows[i].rel != []
    ensures |p| == |rows| && forall i | 0 <= i < |rows| :: p[i] == SlotOf(rows[i])
  {
    seq(|rows|, i requires 0 <= i < |rows| => SlotOf(rows[i]))
  }

  predicate Distinct<T(==)>(s: seq<T>) {
    forall i, j | 0 <= i < j < |s| :: s[i] != s[j]
  }

  /** Every file on disk is at some slot, and what lies at a slot is what it is meant to hold. */
  ghost predicate Disk(slots: seq<Path>, bin: map<Path, Bytes>, contents: seq<Bytes>) {
    && |slots| == |contents| && Distinct(slots)
    && (forall p | p in bin :: p in slots)
    && (forall i | 0 <= i < |slots| && slots[i] in bin :: bin[slots[i]] == contents[i])
  }

  /** Rows unique per version, every trashed file has its row, each slot holds the content its row was made for. */
  ghost predicate Inv(s: State) {
    GoodRows(s.rows) && Disk(Slots(s.rows), s.bin, s.contents)
  }

  // ---- The ledger: the specification of a trash ----

  /** What a trash is for: which content was trashed under which name and when, and whether it is still there. */
  datatype Entry = Entry(rel: Path, size: nat, at: int, content: Bytes, present: bool)

  ghost function Ledger(s: State): (l: seq<Entry>)
    requires Inv(s)
    ensures |l| == |s.rows|
  {
    Entries(s.rows, Slots(s.rows), s.bin, s.contents)
  }

  function Entries(rows: seq<TrashRow>, slots: seq<Path>, bin: map<Path, Bytes>, contents: seq<Bytes>): (l: seq<Entry>)
    requires |rows| == |slots| == |contents|
    ensures |l| == |rows|
  {
    seq(|rows|, i requires 0 <= i < |rows| =>
      Entry(rows[i].rel, rows[i].size, rows[i].at, contents[i], slots[i] in bin))
  }

  /** A present entry's bytes are on disk, at the slot of its row. */
  lemma PresentMeansStored(s: State, i: nat)
    requires Inv(s) && i < |s.rows| && Ledger(s)[i].present
    ensures SlotOf(s.rows[i]) in s.bin && s.bin[SlotOf(s.rows[i])] == Ledger(s)[i].content
  {
  }

  // ---- Disk lemmas, free of numbering ----

  lemma DiskRename(slots: seq<Path>, bin: map<Path, Bytes>, contents: seq<Bytes>, k: nat, dst: Path)
    requires Disk(slots, bin, contents) && k < |slots| && dst !in slots
    ensures var b := if slots[k] in bin then MoveFile(bin, slots[k], dst) else bin;
            && Disk(slots[k := dst], b, contents) && slots[k] !in b
            && forall i | 0 <= i < |slots| :: slots[k := dst][i] in b <==> slots[i] in bin
  {
    var b := if slots[k] in bin then MoveFile(bin, slots[k], dst) else bin;
    var renamed := slots[k := dst];
    forall p | p in b
      ensures p in renamed
    {
      if p == dst {
        assert renamed[k] == dst;
      } else {
        var i :| 0 <= i < |slots| && slots[i] == p;
        assert renamed[i] == p;
      }
    }
  }

  lemma DiskAppend(slots: seq<Path>, bin: map<Path, Bytes>, contents: seq<Bytes>, p: Path, c: Bytes)
    requires Disk(slots, bin, contents) && p !in slots
    ensures Disk(slots + [p], bin[p := c], contents + [c])
    ensures forall i | 0 <= i < |slots| :: slots[i] in bin[p := c] <==> slots[i] in bin
  {
  }

  lemma DiskDrop(slots: seq<Path>, bin: map<Path, Bytes>, contents: seq<Bytes>, k: nat)
    requires Disk(slots, bin, contents) && k < |slots|
    ensures Disk(slots, bin - {slots[k]}, contents)
    ensures Disk(slots[..k] + slots[k + 1..], bin - {slots[k]}, contents[..k] + contents[k + 1..])
    ensures forall i | 0 <= i < |slots| && i != k :: slots[i] in bin - {slots[k]} <==> slots[i] in bin
  {
  }

  // ---- Rows lemmas, free of the disk ----

  lemma SlotTaken(rows: seq<TrashRow>, i: nat, rel: Path, n: nat)
    requires GoodRows(rows) && i < |rows| && rel != [] && !LooksLikeSlot(rel)
    ensures SlotOf(rows[i]) == Slot(rel, n) <==> rows[i].rel == rel && rows[i].version == n
  {
    if SlotOf(rows[i]) == Slot(rel, n) {
      SlotInjective(rows[i].rel, rows[i].version, rel, n);
    }
  }

  /** The canonical slot is taken exactly when there is a canonical row. */
  lemma CanonicalTaken(rows: seq<TrashRow>, rel: Path)
    requires GoodRows(rows) && rel != [] && !LooksLikeSlot(rel)
    ensures rel in Slots(rows) <==> HasCanonical(rows, rel)
  {
    forall i: nat | i < |rows|
      ensures SlotOf(rows[i]) == rel <==> rows[i].rel == rel && rows[i].version == 0
    {
      SlotTaken(rows, i, rel, 0);
    }
    if rel in Slots(rows) {
      var i :| 0 <= i < |rows| && Slots(rows)[i] == rel;
      assert rows[i].rel == rel && rows[i].version == 0;
    }
    if HasCanonical(rows, rel) {
      var i :| 0 <= i < |rows| && rows[i].rel == rel && rows[i].version == 0;
      assert Slots(rows)[i] == rel;
    }
  }

  lemma NextSlotFree(rows: seq<TrashRow>, rel: Path)
    requires GoodRows(rows) && rel != [] && !LooksLikeSlot(rel)
    ensures Slot(rel, MaxVersion(rows, rel) + 1) !in Slots(rows)
  {
    var n := MaxVersion(rows, rel) + 1;
    forall i: nat | i < |rows|
      ensures Slots(rows)[i] != Slot(rel, n)
    {
      assert rows[i] in rows;
      SlotTaken(rows, i, rel, n);
    }
  }

  /** `.versions/<max+1>` is always free, so moveFile never deletes a destination there. */
  lemma NextVersionSlotIsFree(s: State, rel: Path)
    requires Inv(s) && rel != [] && !LooksLikeSlot(rel)
    ensures Slot(rel, MaxVersion(s.rows, rel) + 1) !in s.bin
  {
    NextSlotFree(s.rows, rel);
  }

  lemma BumpGood(rows: seq<TrashRow>, rel: Path, k: nat)
    requires GoodRows(rows) && k < |rows| && rows[k].rel == rel && rows[k].version == 0
    ensures GoodRows(rows[k := rows[k].(version := MaxVersion(rows, rel) + 1)])
  {
  }

  // ---- Steps refine the ledger ----

  /** There is one canonical row to renumber. */
  lemma BumpOne(rows: seq<TrashRow>, rel: Path, k: nat, n: nat)
    requires GoodRows(rows) && k < |rows| && rows[k].rel == rel && rows[k].version == 0
    ensures Bump(rows, rel, n) == rows[k := rows[k].(version := n)] && HasCanonical(rows, rel)
  {
  }

  lemma VacateRenames(s: State, rel: Path, k: nat)
    requires GoodRows(s.rows) && rel != [] && k < |s.rows| && s.rows[k].rel == rel && s.rows[k].version == 0
    ensures var n := MaxVersion(s.rows, rel) + 1;
            Vacate(s, rel) == s.(bin := if rel in s.bin then MoveFile(s.bin, rel, Slot(rel, n)) else s.bin,
                                 rows := s.rows[k := s.rows[k].(version := n)])
  {
    BumpOne(s.rows, rel, k, MaxVersion(s.rows, rel) + 1);
  }

  /** Vacating the canonical slot renumbers and moves files, yet the ledger does not change. */
  lemma VacateKeepsLedger(s: State, rel: Path)
    requires Inv(s) && rel != [] && !LooksLikeSlot(rel)
    ensures Inv(Vacate(s, rel)) && Ledger(Vacate(s, rel)) == Ledger(s)
    ensures rel !in Slots(Vacate(s, rel).rows)
  {
    CanonicalTaken(s.rows, rel);
    assert rel in s.bin ==> rel in Slots(s.rows);
    if HasCanonical(s.rows, rel) {
      var k: nat :| k < |s.rows| && s.rows[k].rel == rel && s.rows[k].version == 0;
      VacateTaken(s, rel, k);
    }
  }

  lemma VacateTaken(s: State, rel: Path, k: nat)
    requires Inv(s) && rel != [] && !LooksLikeSlot(rel)
    requires k < |s.rows| && s.rows[k].rel == rel && s.rows[k].version == 0
    ensures Inv(Vacate(s, rel)) && Ledger(Vacate(s, rel)) == Ledger(s)
    ensures rel !in Slots(Vacate(s, rel).rows)
  {
    VacateRenames(s, rel, k);
    var n := MaxVersion(s.rows, rel) + 1;
    BumpGood(s.rows, rel, k);
    RenamedSlots(s.rows, rel, k, n);
    VacatedDisk(s, rel, k, n);
    RenumberedKeepsLedger(s, Vacate(s, rel), Slots(s.rows)[k := Slot(rel, n)]);
  }

  /** Rows with other versions, whose files have followed, are the same ledger. */
  lemma RenumberedKeepsLedger(s: State, t: State, moved: seq<Path>)
    requires Inv(s) && t.contents == s.contents && GoodRows(t.rows) && Slots(t.rows) == moved
             && Disk(moved, t.bin, t.contents)
    requires |t.rows| == |s.rows| && forall i | 0 <= i < |s.rows| ::
               s.rows[i].rel == t.rows[i].rel && s.rows[i].size == t.rows[i].size && s.rows[i].at == t.rows[i].at
    requires forall i | 0 <= i < |moved| :: moved[i] in t.bin <==> Slots(s.rows)[i] in s.bin
    ensures Inv(t) && Ledger(t) == Ledger(s)
  {
    SameEntries(s.rows, t.rows, Slots(s.rows), moved, s.bin, t.bin, s.contents);
  }

  lemma VacatedDisk(s: State, rel: Path, k: nat, n: nat)
    requires Inv(s) && rel != [] && !LooksLikeSlot(rel) && n == MaxVersion(s.rows, rel) + 1
    requires k < |s.rows| && s.rows[k].rel == rel && s.rows[k].version == 0
    ensures var slots := Slots(s.rows)[k := Slot(rel, n)];
            var b := if rel in s.bin then MoveFile(s.bin, rel, Slot(rel, n)) else s.bin;
            Disk(slots, b, s.contents) && forall i | 0 <= i < |slots| :: slots[i] in b <==> Slots(s.rows)[i] in s.bin
  {
    NextSlotFree(s.rows, rel);
    assert Slots(s.rows)[k] == rel;
    DiskRename(Slots(s.rows), s.bin, s.contents, k, Slot(rel, n));
  }

  lemma RenamedSlots(rows: seq<TrashRow>, rel: Path, k: nat, n: nat)
    requires GoodRows(rows) && k < |rows| && rows[k].rel == rel && rows[k].version == 0 && n > 0 && rel != []
    requires Distinct(Slots(rows))
    ensures var renamed := rows[k := rows[k].(version := n)];
            && (forall i | 0 <= i < |renamed| :: renamed[i].rel != [])
            && Slots(renamed) == Slots(rows)[k := Slot(rel, n)] && rel !in Slots(renamed)
  {
    OtherSlot(rel, n);
    assert Slots(rows)[k] == rel;
  }

  /** The same names, sizes and dates, the same contents and the same presence are the same entries. */
  lemma SameEntries(rows: seq<TrashRow>, renamed: seq<TrashRow>, slots: seq<Path>, moved: seq<Path>,
                    bin: map<Path, Bytes>, b: map<Path, Bytes>, contents: seq<Bytes>)
    requires |rows| == |renamed| == |slots| == |moved| == |contents|
    requires forall i | 0 <= i < |rows| ::
               rows[i].rel == renamed[i].rel && rows[i].size == renamed[i].size && rows[i].at == renamed[i].at
    requires forall i | 0 <= i < |slots| :: moved[i] in b <==> slots[i] in bin
    ensures Entries(renamed, moved, b, contents) == Entries(rows, slots, bin, contents)
  {
  }

  lemma AppendRowGood(rows: seq<TrashRow>, rel: Path, size: nat, now: int)
    requires GoodRows(rows) && rel != [] && !LooksLikeSlot(rel) && rel !in Slots(rows)
    ensures GoodRows(rows + [TrashRow(NextId(rows), rel, 0, size, now)])
    ensures Slots(rows + [TrashRow(NextId(rows), rel, 0, size, now)]) == Slots(rows) + [rel]
  {
  }

  /** A file put into a free canonical slot with a row of its own is one entry more. */
  lemma EntryAppended(v: State, rel: Path, size: nat, now: int, x: Bytes)
    requires Inv(v) && rel != [] && !LooksLikeSlot(rel) && rel !in Slots(v.rows)
    ensures var rows := v.rows + [TrashRow(NextId(v.rows), rel, 0, size, now)];
            var bin, contents := v.bin[rel := x], v.contents + [x];
            && GoodRows(rows) && Disk(Slots(rows), bin, contents)
            && Entries(rows, Slots(rows), bin, contents) == Ledger(v) + [Entry(rel, size, now, x, true)]
  {
    AppendRowGood(v.rows, rel, size, now);
    DiskAppend(Slots(v.rows), v.bin, v.contents, rel, x);
  }

  /**
   * Trashing a file appends exactly one entry, with the file's content, to an otherwise unchanged
   * ledger (a file missing from the storage appends none), and takes only that file out of the storage.
   */
  lemma MoveOneAppends(s: State, rel: Path, size: nat, now: int, norm: Path -> string)
    requires Inv(s) && rel != [] && !LooksLikeSlot(rel)
    ensures var t := MoveOne(s, rel, size, now, norm);
            && Inv(t)
            && Ledger(t) == Ledger(s) + Appended(s.storage, rel, size, now)
            && t.storage == s.storage - {rel}
  {
    if rel in s.storage {
      VacateKeepsLedger(s, rel);
      EntryAppended(Vacate(s, rel), rel, size, now, s.storage[rel]);
    } else {
      assert s.storage - {rel} == s.storage;
      assert Ledger(s) + [] == Ledger(s);
    }
  }

  /** The ledger entries one move adds. */
  function Appended(storage: map<Path, Bytes>, rel: Path, size: nat, now: int): seq<Entry> {
    if rel in storage then [Entry(rel, size, now, storage[rel], true)] else []
  }

  lemma DropRowsGood(rows: seq<TrashRow>, k: nat)
    requires GoodRows(rows) && k < |rows|
    ensures GoodRows(rows[..k] + rows[k + 1..])
    ensures Slots(rows[..k] + rows[k + 1..]) == Slots(rows)[..k] + Slots(rows)[k + 1..]
  {
  }

  lemma DropRowKeepsInv(s: State, k: nat)
    requires Inv(s) && k < |s.rows|
    ensures Inv(DropRow(s, k)) && Slots(DropRow(s, k).rows) == Slots(s.rows)[..k] + Slots(s.rows)[k + 1..]
  {
    DropRowsGood(s.rows, k);
    DiskDrop(Slots(s.rows), s.bin, s.contents, k);
  }

  lemma EntriesDrop(rows: seq<TrashRow>, slots: seq<Path>, bin: map<Path, Bytes>, less: map<Path, Bytes>,
                    contents: seq<Bytes>, k: nat)
    requires |rows| == |slots| == |contents| && k < |rows|
    requires forall i | 0 <= i < |slots| && i != k :: slots[i] in less <==> slots[i] in bin
    ensures Entries(rows[..k] + rows[k + 1..], slots[..k] + slots[k + 1..], less, contents[..k] + contents[k + 1..])
      == Entries(rows, slots, bin, contents)[..k] + Entries(rows, slots, bin, contents)[k + 1..]
  {
  }

  /** Expiry of row k removes entry k and nothing else. */
  lemma DropRowRemoves(s: State, k: nat)
    requires Inv(s) && k < |s.rows|
    ensures Inv(DropRow(s, k)) && Ledger(DropRow(s, k)) == Ledger(s)[..k] + Ledger(s)[k + 1..]
  {
    DropRowKeepsInv(s, k);
    DiskDrop(Slots(s.rows), s.bin, s.contents, k);
    EntriesDrop(s.rows, Slots(s.rows), s.bin, s.bin - {Slots(s.rows)[k]}, s.contents, k);
  }

  /** Taking a file out by hand marks its entry absent and touches no other. */
  lemma ExtractMarks(s: State, k: nat)
    requires Inv(s) && k < |s.rows|
    ensures Inv(Extract(s, k)) && Ledger(Extract(s, k)) == Ledger(s)[k := Ledger(s)[k].(present := false)]
  {
  }

  // ---- Expiry ----

  function FirstDue(rows: seq<TrashRow>, cutoff: int): (i: nat)
    ensures i <= |rows| && (i < |rows| ==> rows[i].at < cutoff)
    ensures forall j | 0 <= j < i :: rows[j].at >= cutoff
  {
    if rows == [] || rows[0].at < cutoff then 0 else 1 + FirstDue(rows[1..], cutoff)
  }

  /** Everything older than the cutoff expires, oldest row id first. */
  function Purge(s: State, cutoff: int): State
    requires |s.rows| == |s.contents| && forall r | r in s.rows :: r.rel != []
    decreases |s.rows|
  {
    var i := FirstDue(s.rows, cutoff);
    if i == |s.rows| then s else Purge(DropRow(s, i), cutoff)
  }

  /** The entries a cleanup must leave. */
  function Unexpired(l: seq<Entry>, cutoff: int): seq<Entry> {
    if l == [] then [] else (if l[0].at < cutoff then [] else [l[0]]) + Unexpired(l[1..], cutoff)
  }

  lemma {:induction false} UnexpiredDrop(l: seq<Entry>, cutoff: int, k: nat)
    requires k < |l| && l[k].at < cutoff
    ensures Unexpired(l[..k] + l[k + 1..], cutoff) == Unexpired(l, cutoff)
  {
    if k == 0 {
      assert l[..0] + l[1..] == l[1..];
    } else {
      UnexpiredDrop(l[1..], cutoff, k - 1);
      var m := l[..k] + l[k + 1..];
      assert m[1..] == l[1..][..k - 1] + l[1..][k..];
    }
  }

  lemma {:induction false} UnexpiredAll(l: seq<Entry>, cutoff: int)
    requires forall e | e in l :: e.at >= cutoff
    ensures Unexpired(l, cutoff) == l
  {
    if l != [] {
      UnexpiredAll(l[1..], cutoff);
      assert l == [l[0]] + l[1..];
    }
  }

  /** A cleanup removes exactly the entries older than the cutoff. */
  lemma {:induction false} PurgeFilters(s: State, cutoff: int)
    requires Inv(s)
    ensures forall r | r in s.rows :: r.rel != []
    ensures Inv(Purge(s, cutoff)) && Ledger(Purge(s, cutoff)) == Unexpired(Ledger(s), cutoff)
    ensures Purge(s, cutoff).storage == s.storage
    decreases |s.rows|
  {
    var i := FirstDue(s.rows, cutoff);
    if i == |s.rows| {
      UnexpiredAll(Ledger(s), cutoff);
    } else {
      DropRowRemoves(s, i);
      UnexpiredDrop(Ledger(s), cutoff, i);
      PurgeFilters(DropRow(s, i), cutoff);
    }
  }

  // ---- Whole runs ----

  datatype Op =
    | Trashed(rel: Path, size: nat, now: int)
    | Expired(cutoff: int)
    | TakenOut(row: nat)
    | Stored(rel: Path, content: Bytes)

  predicate GoodOp(op: Op) {
    op.Trashed? ==> op.rel != [] && !LooksLikeSlot(op.rel)
  }

  ghost function Step(s: State, op: Op, norm: Path -> string): State
    requires Inv(s) && GoodOp(op)
  {
    match op
    case Trashed(rel, size, now) => MoveOne(s, rel, size, now, norm)
    case Expired(cutoff) =>
      PurgeFilters(s, cutoff);
      Purge(s, cutoff)
    case TakenOut(i) => if i < |s.rows| then Extract(s, i) else s
    case Stored(rel, content) => s.(storage := s.storage[rel := content])
  }

  /** The specification of the same step: a storage and a ledger, no rows, versions, slots or trash files. */
  function LedgerStep(storage: map<Path, Bytes>, l: seq<Entry>, op: Op): (map<Path, Bytes>, seq<Entry>) {
    match op
    case Trashed(rel, size, now) => (storage - {rel}, l + Appended(storage, rel, size, now))
    case Expired(cutoff) => (storage, Unexpired(l, cutoff))
    case TakenOut(i) => (storage, if i < |l| then l[i := l[i].(present := false)] else l)
    case Stored(rel, content) => (storage[rel := content], l)
  }

  lemma StepRefines(s: State, op: Op, norm: Path -> string)
    requires Inv(s) && GoodOp(op)
    ensures Inv(Step(s, op, norm))
    ensures (Step(s, op, norm).storage, Ledger(Step(s, op, norm))) == LedgerStep(s.storage, Ledger(s), op)
  {
    match op
    case Trashed(rel, size, now) => MoveOneAppends(s, rel, size, now, norm);
    case Expired(cutoff) => PurgeFilters(s, cutoff);
    case TakenOut(i) => if i < |s.rows| { ExtractMarks(s, i); }
    case Stored(_, _) =>
  }

  ghost function Run(s: State, ops: seq<Op>, norm: Path -> string): (t: State)
    requires Inv(s) && forall op | op in ops :: GoodOp(op)
    ensures Inv(t)
    decreases |ops|
  {
    if ops == [] then s
    else
      StepRefines(s, ops[0], norm);
      Run(Step(s, ops[0], norm), ops[1..], norm)
  }

  function LedgerRun(storage: map<Path, Bytes>, l: seq<Entry>, ops: seq<Op>): (map<Path, Bytes>, seq<Entry>)
    decreases |ops|
  {
    if ops == [] then (storage, l)
    else
      var (st, m) := LedgerStep(storage, l, ops[0]);
      LedgerRun(st, m, ops[1..])
  }

  /**
   * Over every sequence of downloads, moves, cleanups and manual removals the versioned trash,
   * its table and its files behave as the plain ledger.
   */
  lemma {:induction false} RunRefinesLedger(s: State, ops: seq<Op>, norm: Path -> string)
    requires Inv(s) && forall op | op in ops :: GoodOp(op)
    ensures (Run(s, ops, norm).storage, Ledger(Run(s, ops, norm))) == LedgerRun(s.storage, Ledger(s), ops)
    decreases |ops|
  {
    if ops != [] {
      StepRefines(s, ops[0], norm);
      RunRefinesLedger(Step(s, ops[0], norm), ops[1..], norm);
    }
  }

  lemma {:induction false} UnexpiredKeeps(l: seq<Entry>, cutoff: int, e: Entry)
    requires e in l && e.at >= cutoff
    ensures e in Unexpired(l, cutoff)
  {
    if e != l[0] {
      UnexpiredKeeps(l[1..], cutoff, e);
    }
  }

  /** No operation takes out a row whose entry is e, and no cleanup has a cutoff past e's date. */
  ghost predicate Spared(storage: map<Path, Bytes>, l: seq<Entry>, ops: seq<Op>, e: Entry)
    decreases |ops|
  {
    ops == [] ||
    (&& (ops[0].TakenOut? && ops[0].row < |l| ==> l[ops[0].row] != e)
     && (ops[0].Expired? ==> ops[0].cutoff <= e.at)
     && var (st, m) := LedgerStep(storage, l, ops[0]); Spared(st, m, ops[1..], e))
  }

  lemma LedgerStepKeeps(storage: map<Path, Bytes>, l: seq<Entry>, op: Op, e: Entry)
    requires e in l && (op.TakenOut? && op.row < |l| ==> l[op.row] != e) && (op.Expired? ==> op.cutoff <= e.at)
    ensures e in LedgerStep(storage, l, op).1
  {
    match op
    case Expired(cutoff) => UnexpiredKeeps(l, cutoff, e);
    case TakenOut(k) =>
      var i :| 0 <= i < |l| && l[i] == e;
      if k < |l| {
        assert l[k := l[k].(present := false)][i] == e;
      }
    case Trashed(_, _, _) =>
    case Stored(_, _) =>
  }

  lemma {:induction false} LedgerRunKeeps(storage: map<Path, Bytes>, l: seq<Entry>, ops: seq<Op>, e: Entry)
    requires e in l && Spared(storage, l, ops, e)
    ensures e in LedgerRun(storage, l, ops).1
    decreases |ops|
  {
    if ops != [] {
      LedgerStepKeeps(storage, l, ops[0], e);
      var (st, m) := LedgerStep(storage, l, ops[0]);
      LedgerRunKeeps(st, m, ops[1..], e);
    }
  }

  /**
   * Retention: a trashed content whose own row nobody takes out is on disk, in the slot of its row, until
   * a cleanup with a cutoff past its own date, whatever happens to other files.
   */
  lemma NothingLostBeforeExpiry(s: State, ops: seq<Op>, norm: Path -> string, e: Entry)
    requires Inv(s) && forall op | op in ops :: GoodOp(op)
    requires e in Ledger(s) && e.present && Spared(s.storage, Ledger(s), ops, e)
    ensures var t := Run(s, ops, norm);
            exists i :: 0 <= i < |t.rows| && t.rows[i].rel == e.rel && t.rows[i].at == e.at
                        && SlotOf(t.rows[i]) in t.bin && t.bin[SlotOf(t.rows[i])] == e.content
  {
    var t := Run(s, ops, norm);
    RunRefinesLedger(s, ops, norm);
    LedgerRunKeeps(s.storage, Ledger(s), ops, e);
    var i: nat :| i < |Ledger(t)| && Ledger(t)[i] == e;
    PresentMeansStored(t, i);
  }
}
