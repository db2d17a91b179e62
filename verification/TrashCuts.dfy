/**
 * The move of a file into the trash, stopped between any two of its steps: by a crash, after which the next
 * cycle tries again, or by an error, after which the file has no index row and nothing tries again.
 */
module TrashCuts {
  import opened Basics
  import opened TrashPaths
  import opened Trash

  /** Where moveOne can be cut: before or after each of its writes to the disk and to the tables. */
  datatype Cut = Untouched | MovedAside | Renumbered | MovedIn | Unindexed | Recorded

  /** The state a cut of the move of a stored file leaves. */
  function CutAt(s: State, rel: Path, size: nat, now: int, norm: Path -> string, c: Cut): State
    requires rel != [] && rel in s.storage
  {
    var v := Vacate(s, rel);
    var moved := v.(storage := s.storage - {rel}, bin := v.bin[rel := s.storage[rel]]);
    match c
    case Untouched => s
    case MovedAside => Aside(s, rel)
    case Renumbered => v
    case MovedIn => moved
    case Unindexed => moved.(index := DropKey(s.index, norm, norm(rel)))
    case Recorded => MoveOne(s, rel, size, now, norm)
  }

  /** The canonical copy is in its new slot, and its row is not yet renumbered. */
  function Aside(s: State, rel: Path): State
    requires rel != []
  {
    if rel in s.bin then s.(bin := MoveFile(s.bin, rel, Slot(rel, MaxVersion(s.rows, rel) + 1))) else s
  }

  /** The file is in the trash without a row. */
  predicate Orphans(c: Cut) {
    c.MovedIn? || c.Unindexed?
  }

  lemma VacatedHasNoCanonical(s: State, rel: Path)
    requires Inv(s) && rel != [] && !LooksLikeSlot(rel)
    ensures var v := Vacate(s, rel);
            Inv(v) && !HasCanonical(v.rows, rel) && rel !in Slots(v.rows) && rel !in v.bin
  {
    VacateKeepsLedger(s, rel);
    CanonicalTaken(Vacate(s, rel).rows, rel);
  }

  lemma NoSuchSlot(rows: seq<TrashRow>, p: Path)
    requires (forall i | 0 <= i < |rows| :: rows[i].rel != []) && p !in Slots(rows)
    ensures forall i | 0 <= i < |rows| :: SlotOf(rows[i]) != p
  {
    forall i | 0 <= i < |rows|
      ensures SlotOf(rows[i]) != p
    {
      assert Slots(rows)[i] in Slots(rows);
    }
  }

  /** A file that no row accounts for. */
  ghost predicate Stray(t: State, p: Path) {
    p in t.bin && forall i | 0 <= i < |t.rows| :: t.rows[i].rel != [] && SlotOf(t.rows[i]) != p
  }

  lemma StrayBreaks(t: State, p: Path)
    requires Stray(t, p)
    ensures !Inv(t)
  {
  }

  lemma AsideIsStray(s: State, rel: Path)
    requires GoodRows(s.rows) && rel != [] && !LooksLikeSlot(rel) && rel in s.bin
    ensures Stray(Aside(s, rel), Slot(rel, MaxVersion(s.rows, rel) + 1))
  {
    NextSlotFree(s.rows, rel);
    NoSuchSlot(s.rows, Slot(rel, MaxVersion(s.rows, rel) + 1));
  }

  /** Which cuts break the invariant, for every state and every path: those that leave a file without its row. */
  lemma CutKeepsInvIff(s: State, rel: Path, size: nat, now: int, norm: Path -> string, c: Cut)
    requires Inv(s) && rel != [] && !LooksLikeSlot(rel) && rel in s.storage
    ensures Inv(CutAt(s, rel, size, now, norm, c)) <==> !Orphans(c) && !(c.MovedAside? && rel in s.bin)
  {
    match c
    case MovedAside =>
      if rel in s.bin {
        AsideIsStray(s, rel);
        StrayBreaks(Aside(s, rel), Slot(rel, MaxVersion(s.rows, rel) + 1));
      }
    case Recorded => MoveOneAppends(s, rel, size, now, norm);
    case Untouched =>
    case Renumbered => VacateKeepsLedger(s, rel);
    case _ =>
      var v := Vacate(s, rel);
      VacatedHasNoCanonical(s, rel);
      NoSuchSlot(v.rows, rel);
      StrayBreaks(CutAt(s, rel, size, now, norm, c), rel);
  }

  lemma BumpNothing(rows: seq<TrashRow>, rel: Path, n: nat)
    requires !HasCanonical(rows, rel)
    ensures Bump(rows, rel, n) == rows
  {
  }

  lemma FileHasRow(s: State, rel: Path)
    requires Inv(s) && rel != [] && !LooksLikeSlot(rel) && rel in s.bin
    ensures HasCanonical(s.rows, rel)
  {
    CanonicalTaken(s.rows, rel);
    assert rel in Slots(s.rows);
  }

  lemma VacateNothing(v: State, rel: Path)
    requires rel != [] && !HasCanonical(v.rows, rel) && rel !in v.bin
    ensures Vacate(v, rel) == v
  {
  }

  /** Vacating the canonical slot again comes to the same: with the file already aside, only its row is left. */
  lemma AsideAgain(s: State, rel: Path)
    requires Inv(s) && rel != [] && !LooksLikeSlot(rel)
    ensures Vacate(Aside(s, rel), rel) == Vacate(s, rel)
  {
    if rel in s.bin {
      FileHasRow(s, rel);
      OtherSlot(rel, MaxVersion(s.rows, rel) + 1);
    }
  }

  lemma VacatedAgain(s: State, rel: Path)
    requires Inv(s) && rel != [] && !LooksLikeSlot(rel)
    ensures Vacate(Vacate(s, rel), rel) == Vacate(s, rel)
  {
    VacatedHasNoCanonical(s, rel);
    VacateNothing(Vacate(s, rel), rel);
  }

  /** A move of a file that is not in the storage touches neither rows nor files. */
  lemma AbsentMove(t: State, rel: Path, size: nat, now: int, norm: Path -> string)
    requires rel != [] && rel !in t.storage
    ensures var u := MoveOne(t, rel, size, now, norm);
            (Inv(u) <==> Inv(t)) && u.storage == t.storage && (Inv(t) ==> Ledger(u) == Ledger(t))
  {
  }

  /** Vacating first changes nothing about a move. */
  lemma MoveAfterVacating(s: State, t: State, rel: Path, size: nat, now: int, norm: Path -> string)
    requires rel != [] && Vacate(t, rel) == Vacate(s, rel) && t.storage == s.storage && t.index == s.index
             && rel in s.storage
    ensures MoveOne(t, rel, size, now, norm) == MoveOne(s, rel, size, now, norm)
  {
  }

  /**
   * After a crash the next cycle tries the move again. That restores the invariant, with one entry for the
   * file, exactly when the file was not left without its row: it is then no longer in the storage, and nothing
   * finds it.
   */
  lemma RetryRecoversIff(s: State, rel: Path, size: nat, now: int, later: int, norm: Path -> string, c: Cut)
    requires Inv(s) && rel != [] && !LooksLikeSlot(rel) && rel in s.storage
    ensures var t := MoveOne(CutAt(s, rel, size, now, norm, c), rel, size, later, norm);
            && (Inv(t) <==> !Orphans(c))
            && (Inv(t) ==> Ledger(t) == Ledger(s) + Appended(s.storage, rel, size, if c.Recorded? then now else later)
                           && t.storage == s.storage - {rel})
  {
    var cut := CutAt(s, rel, size, now, norm, c);
    if c.MovedAside? || c.Renumbered? {
      AsideAgain(s, rel);
      VacatedAgain(s, rel);
      MoveAfterVacating(s, cut, rel, size, later, norm);
      MoveOneAppends(s, rel, size, later, norm);
    } else if c.Untouched? {
      MoveOneAppends(s, rel, size, later, norm);
    } else {
      CutKeepsInvIff(s, rel, size, now, norm, c);
      MoveOneAppends(s, rel, size, now, norm);
      AbsentMove(cut, rel, size, later, norm);
    }
  }

  lemma MaxWithCanonical(rows: seq<TrashRow>, rel: Path, r: TrashRow)
    requires r.version == 0
    ensures MaxVersion(rows + [r], rel) == MaxVersion(rows, rel)
  {
    assert (rows + [r])[..|rows|] == rows;
  }

  /** A first move over a file without a row puts that file into the next version's slot, again without a row. */
  lemma FirstMoveHidesOrphan(c: State, rel: Path, y: Bytes, size: nat, now: int, norm: Path -> string)
    requires rel != [] && rel in c.bin && !HasCanonical(c.rows, rel)
    ensures var n := MaxVersion(c.rows, rel) + 1;
            var one := MoveOne(c.(storage := c.storage[rel := y]), rel, size, now, norm);
            && one.bin == MoveFile(c.bin, rel, Slot(rel, n))[rel := y]
            && one.rows == c.rows + [TrashRow(NextId(c.rows), rel, 0, size, now)]
  {
    BumpNothing(c.rows, rel, MaxVersion(c.rows, rel) + 1);
  }

  /** The second move wants the same slot for the file of the first, and deletes what is there. */
  lemma SecondMoveDeletesOrphan(one: State, rel: Path, rows: seq<TrashRow>, y: Bytes, z: Bytes, size: nat, now: int,
                                norm: Path -> string)
    requires rel != [] && rel in one.bin && one.bin[rel] == y
    requires |one.rows| == |rows| + 1 && one.rows[..|rows|] == rows && one.rows[|rows|].rel == rel
             && one.rows[|rows|].version == 0
    ensures MoveOne(one.(storage := one.storage[rel := z]), rel, size, now, norm).bin
      == MoveFile(one.bin, rel, Slot(rel, MaxVersion(rows, rel) + 1))[rel := z]
  {
    assert one.rows == rows + [one.rows[|rows|]];
    MaxWithCanonical(rows, rel, one.rows[|rows|]);
    assert HasCanonical(one.rows, rel);
  }

  /** Vacating moves files about and adds no content. */
  lemma VacatedBytes(s: State, rel: Path, p: Path)
    requires rel != [] && p in Vacate(s, rel).bin
    ensures Vacate(s, rel).bin[p] in s.bin.Values
  {
  }

  /** Moving twice from p to the same d, with new content at p in between, leaves nothing of the first x. */
  lemma Overwritten(bin: map<Path, Bytes>, p: Path, d: Path, x: Bytes, y: Bytes, z: Bytes)
    requires p in bin && bin[p] == x && d != p && x != y && x != z && forall q | q in bin && q != p :: bin[q] != x
    ensures var one := MoveFile(bin, p, d)[p := y];
            x in one.Values && x !in MoveFile(one, p, d)[p := z].Values
  {
    assert MoveFile(bin, p, d)[p := y][d] == x;
  }

  /** The second of two moves over a file x without a row deletes it. */
  lemma SecondMoveLoses(one: State, rows: seq<TrashRow>, bin: map<Path, Bytes>, rel: Path, row: TrashRow, x: Bytes,
                        y: Bytes, z: Bytes,
                        size: nat, now: int, norm: Path -> string)
    requires rel in bin && bin[rel] == x && x != y && x != z && (forall p | p in bin && p != rel :: bin[p] != x)
    requires rel != [] && one.bin == MoveFile(bin, rel, Slot(rel, MaxVersion(rows, rel) + 1))[rel := y]
    requires one.rows == rows + [row] && row.rel == rel && row.version == 0
    ensures x in one.bin.Values
            && x !in MoveOne(one.(storage := one.storage[rel := z]), rel, size, now, norm).bin.Values
  {
    OtherSlot(rel, MaxVersion(rows, rel) + 1);
    SecondMoveDeletesOrphan(one, rel, rows, y, z, size, now, norm);
    Overwritten(bin, rel, Slot(rel, MaxVersion(rows, rel) + 1), x, y, z);
  }

  /** Two moves over a file x without a row delete it. */
  lemma OrphanIsDeleted(cut: State, rel: Path, x: Bytes, norm: Path -> string, y: Bytes, z: Bytes, sizes: (nat, nat),
                        times: (int, int))
    requires rel != [] && rel in cut.bin && cut.bin[rel] == x && !HasCanonical(cut.rows, rel) && x != y && x != z
    requires forall p | p in cut.bin && p != rel :: cut.bin[p] != x
    ensures var one := MoveOne(cut.(storage := cut.storage[rel := y]), rel, sizes.0, times.0, norm);
            var two := MoveOne(one.(storage := one.storage[rel := z]), rel, sizes.1, times.1, norm);
            x in one.bin.Values && x !in two.bin.Values
  {
    FirstMoveHidesOrphan(cut, rel, y, sizes.0, times.0, norm);
    SecondMoveLoses(MoveOne(cut.(storage := cut.storage[rel := y]), rel, sizes.0, times.0, norm), cut.rows, cut.bin,
                    rel,
      TrashRow(NextId(cut.rows), rel, 0, sizes.0, times.0), x, y, z, sizes.1, times.1, norm);
  }

  /**
   * What such a cut costs, for every state and every path: two later moves of the same path delete the
   * file, and its content is nowhere in the trash unless another file has the same.
   */
  lemma CutBetweenMoveAndInsertLoses(s: State, rel: Path, size: nat, now: int, norm: Path -> string, c: Cut,
                                     y: Bytes, z: Bytes, sizes: (nat, nat), times: (int, int))
    requires Inv(s) && rel != [] && !LooksLikeSlot(rel) && rel in s.storage && Orphans(c)
    requires var x := s.storage[rel]; x != y && x != z && x !in s.bin.Values
    ensures var cut := CutAt(s, rel, size, now, norm, c);
            var one := MoveOne(cut.(storage := cut.storage[rel := y]), rel, sizes.0, times.0, norm);
            var two := MoveOne(one.(storage := one.storage[rel := z]), rel, sizes.1, times.1, norm);
            s.storage[rel] in one.bin.Values && s.storage[rel] !in two.bin.Values
  {
    var cut, x := CutAt(s, rel, size, now, norm, c), s.storage[rel];
    VacatedHasNoCanonical(s, rel);
    forall p | p in cut.bin && p != rel
      ensures cut.bin[p] != x
    {
      VacatedBytes(s, rel, p);
    }
    OrphanIsDeleted(cut, rel, x, norm, y, z, sizes, times);
  }

  // ---- Failing moves ----

  /** Where an error can stop moveOne. */
  type Failure = c: Cut | c != Recorded witness Untouched

  /** A failing move, and the index row dropped afterwards all the same. */
  function Failed(s: State, rel: Path, size: nat, now: int, norm: Path -> string, c: Failure): State
    requires rel != []
  {
    var t := if rel in s.storage then CutAt(s, rel, size, now, norm, c) else s;
    t.(index := DropKey(s.index, norm, norm(rel)))
  }

  /** The failure leaves a file in the trash without its row. */
  predicate Harms(s: State, rel: Path, c: Failure) {
    rel in s.storage && (Orphans(c) || (c.MovedAside? && rel in s.bin))
  }

  /**
   * What an error leaves, wherever it stops the move: no index row of the key, so that nothing tries again;
   * the file in the storage with no row anywhere, or, if it was moved, in the trash with no row; rows and
   * disk in step exactly when no trashed file lost its row, and then the same entries as before.
   */
  lemma FailedLeaves(s: State, rel: Path, size: nat, now: int, norm: Path -> string, c: Failure)
    requires Inv(s) && rel != [] && !LooksLikeSlot(rel)
    ensures var t := Failed(s, rel, size, now, norm, c);
            && (forall r | r in t.index :: norm(r) != norm(rel))
            && t.storage == s.storage - (if Orphans(c) then {rel} else {})
            && (Inv(t) <==> !Harms(s, rel, c)) && (Inv(t) ==> Ledger(t) == Ledger(s))
  {
    assert s.storage - {} == s.storage;
    var i := DropKey(s.index, norm, norm(rel));
    if rel in s.storage {
      CutKeepsInvIff(s, rel, size, now, norm, c);
      HarmlessCut(s, rel, size, now, norm, c);
      IndexIsApart(CutAt(s, rel, size, now, norm, c), i);
    } else {
      IndexIsApart(s, i);
      assert s.storage - {rel} == s.storage;
    }
  }

  /** Rows and files do not depend on the file index. */
  lemma IndexIsApart(s: State, i: map<Path, nat>)
    ensures (Inv(s.(index := i)) <==> Inv(s)) && (Inv(s) ==> Ledger(s.(index := i)) == Ledger(s))
  {
  }

  lemma HarmlessCut(s: State, rel: Path, size: nat, now: int, norm: Path -> string, c: Failure)
    requires Inv(s) && rel != [] && !LooksLikeSlot(rel) && rel in s.storage
    ensures var t := CutAt(s, rel, size, now, norm, c);
            && t.storage == s.storage - (if Orphans(c) then {rel} else {})
            && (!Harms(s, rel, c) ==> Inv(t) && Ledger(t) == Ledger(s))
  {
    assert s.storage - {} == s.storage;
    VacateKeepsLedger(s, rel);
  }

  /**
   * A new file at that path, trashed later, brings rows and disk in step again exactly when the failing move
   * had not moved its file into the canonical slot.
   */
  lemma LaterMoveRecoversIff(s: State, rel: Path, size: nat, now: int, norm: Path -> string, c: Failure,
                             y: Bytes, newSize: nat, later: int)
    requires Inv(s) && rel != [] && !LooksLikeSlot(rel) && rel in s.storage
    ensures var t := Failed(s, rel, size, now, norm, c);
            var u := MoveOne(t.(storage := t.storage[rel := y]), rel, newSize, later, norm);
            && (Inv(u) <==> !Orphans(c))
            && (Inv(u) ==> Ledger(u) == Ledger(s) + [Entry(rel, newSize, later, y, true)])
  {
    if Orphans(c) {
      OrphanStaysStray(s, rel, size, now, norm, c, y, newSize, later);
    } else {
      LaterMoveAppends(s, rel, size, now, norm, c, y, newSize, later);
    }
  }

  lemma LaterMoveAppends(s: State, rel: Path, size: nat, now: int, norm: Path -> string, c: Failure,
                         y: Bytes, newSize: nat, later: int)
    requires Inv(s) && rel != [] && !LooksLikeSlot(rel) && rel in s.storage && !Orphans(c)
    ensures var t := Failed(s, rel, size, now, norm, c);
            var u := MoveOne(t.(storage := t.storage[rel := y]), rel, newSize, later, norm);
            Inv(u) && Ledger(u) == Ledger(s) + [Entry(rel, newSize, later, y, true)]
  {
    var t := Failed(s, rel, size, now, norm, c);
    var r := s.(storage := s.storage[rel := y], index := t.index);
    StorageIsApart(s, s.storage[rel := y], t.index);
    StoredAgain(s, rel, size, now, norm, c, y);
    MoveAfterVacating(r, t.(storage := t.storage[rel := y]), rel, newSize, later, norm);
    MoveOneAppends(r, rel, newSize, later, norm);
  }

  /** Rows and trashed files do not depend on the storage and the file index. */
  lemma StorageIsApart(s: State, storage: map<Path, Bytes>, i: map<Path, nat>)
    requires Inv(s)
    ensures var r := s.(storage := storage, index := i); Inv(r) && Ledger(r) == Ledger(s)
  {
  }

  lemma StoredAgain(s: State, rel: Path, size: nat, now: int, norm: Path -> string, c: Failure, y: Bytes)
    requires Inv(s) && rel != [] && !LooksLikeSlot(rel) && rel in s.storage && !Orphans(c)
    ensures var t := Failed(s, rel, size, now, norm, c);
            var r := s.(storage := s.storage[rel := y], index := t.index);
            && t.storage[rel := y] == r.storage
            && Vacate(t.(storage := t.storage[rel := y]), rel) == Vacate(r, rel)
  {
    var i := DropKey(s.index, norm, norm(rel));
    VacateIsApart(s, rel, s.storage[rel := y], i);
    match c
    case Untouched =>
    case MovedAside =>
      AsideAgain(s, rel);
      VacateIsApart(Aside(s, rel), rel, s.storage[rel := y], i);
    case Renumbered =>
      VacatedAgain(s, rel);
      VacateIsApart(Vacate(s, rel), rel, s.storage[rel := y], i);
  }

  lemma VacateIsApart(s: State, rel: Path, storage: map<Path, Bytes>, i: map<Path, nat>)
    requires rel != []
    ensures Vacate(s.(storage := storage, index := i), rel) == Vacate(s, rel).(storage := storage, index := i)
  {
  }

  lemma OrphanStaysStray(s: State, rel: Path, size: nat, now: int, norm: Path -> string, c: Failure,
                         y: Bytes, newSize: nat, later: int)
    requires Inv(s) && rel != [] && !LooksLikeSlot(rel) && rel in s.storage && Orphans(c)
    ensures var t := Failed(s, rel, size, now, norm, c);
            !Inv(MoveOne(t.(storage := t.storage[rel := y]), rel, newSize, later, norm))
  {
    var t := Failed(s, rel, size, now, norm, c);
    VacatedHasNoCanonical(s, rel);
    FirstMoveHidesOrphan(t, rel, y, newSize, later, norm);
    HiddenIsStray(t, MoveOne(t.(storage := t.storage[rel := y]), rel, newSize, later, norm), rel, y,
                  TrashRow(NextId(t.rows), rel, 0, newSize, later));
  }

  lemma HiddenIsStray(t: State, u: State, rel: Path, y: Bytes, row: TrashRow)
    requires GoodRows(t.rows) && rel != [] && !LooksLikeSlot(rel) && rel in t.bin
    requires u.bin == MoveFile(t.bin, rel, Slot(rel, MaxVersion(t.rows, rel) + 1))[rel := y]
    requires u.rows == t.rows + [row] && row.rel == rel && row.version == 0
    ensures !Inv(u)
  {
    var p := Slot(rel, MaxVersion(t.rows, rel) + 1);
    NextSlotFree(t.rows, rel);
    OtherSlot(rel, MaxVersion(t.rows, rel) + 1);
    NoSuchSlot(t.rows, p);
    OneMoreRow(t.rows, row, p);
    StrayBreaks(u, p);
  }

  lemma OneMoreRow(rows: seq<TrashRow>, row: TrashRow, p: Path)
    requires forall i | 0 <= i < |rows| :: rows[i].rel != [] && SlotOf(rows[i]) != p
    requires row.rel != [] && SlotOf(row) != p
    ensures var more := rows + [row]; forall i | 0 <= i < |more| :: more[i].rel != [] && SlotOf(more[i]) != p
  {
  }

  // ---- Other paths ----

  /** A slot of rel. */
  ghost predicate OfPath(p: Path, rel: Path)
    requires rel != []
  {
    exists n: nat :: p == Slot(rel, n)
  }

  lemma OfOnePath(p: Path, a: Path, b: Path)
    requires a != [] && b != [] && !LooksLikeSlot(a) && !LooksLikeSlot(b) && OfPath(p, a) && OfPath(p, b)
    ensures a == b
  {
    var n: nat :| p == Slot(a, n);
    var m: nat :| p == Slot(b, m);
    SlotInjective(a, n, b, m);
  }

  lemma CanonicalOf(rel: Path)
    requires rel != []
    ensures OfPath(rel, rel)
  {
    assert Slot(rel, 0) == rel;
  }

  /** t differs from s at most by slots of rel and by rows of rel. */
  ghost predicate SameElsewhere(s: State, t: State, rel: Path)
    requires rel != []
  {
    forall p | !OfPath(p, rel) :: (p in t.bin <==> p in s.bin) && (Stray(s, p) ==> Stray(t, p))
  }

  lemma VacateElsewhere(s: State, rel: Path)
    requires rel != []
    ensures SameElsewhere(s, Vacate(s, rel), rel) && SameElsewhere(s, Aside(s, rel), rel)
  {
    var n := MaxVersion(s.rows, rel) + 1;
    CanonicalOf(rel);
    assert OfPath(Slot(rel, n), rel);
    forall p, i | !OfPath(p, rel) && 0 <= i < |s.rows| && s.rows[i].rel != [] && SlotOf(s.rows[i]) != p
      ensures SlotOf(BumpRow(s.rows[i], rel, n)) != p
    {
    }
  }

  /** A file put into the canonical slot, with a row of its own or without. */
  lemma StoredElsewhere(v: State, rel: Path, t: State)
    requires rel != [] && rel in t.bin && t.bin == v.bin[rel := t.bin[rel]]
    requires t.rows == v.rows || (|t.rows| == |v.rows| + 1 && t.rows == v.rows + [t.rows[|v.rows|]]
                                  && t.rows[|v.rows|].rel == rel && t.rows[|v.rows|].version == 0)
    ensures SameElsewhere(v, t, rel)
  {
    CanonicalOf(rel);
  }

  /** A move, failing anywhere or not at all, touches no other path's slots and rows. */
  lemma MoveElsewhere(s: State, rel: Path, size: nat, now: int, norm: Path -> string, c: Cut)
    requires rel != [] && rel in s.storage
    ensures SameElsewhere(s, CutAt(s, rel, size, now, norm, c), rel)
  {
    VacateElsewhere(s, rel);
    if Orphans(c) || c.Recorded? {
      StoredElsewhere(Vacate(s, rel), rel, CutAt(s, rel, size, now, norm, c));
    }
  }

  /** A move that fails harmfully leaves a stray file of its path. */
  lemma HarmIsStray(s: State, rel: Path, size: nat, now: int, norm: Path -> string, c: Failure) returns (p: Path)
    requires Inv(s) && rel != [] && !LooksLikeSlot(rel) && Harms(s, rel, c)
    ensures OfPath(p, rel) && Stray(Failed(s, rel, size, now, norm, c), p)
  {
    if Orphans(c) {
      p := rel;
      CanonicalOf(rel);
      VacatedHasNoCanonical(s, rel);
      NoSuchSlot(Vacate(s, rel).rows, p);
    } else {
      p := Slot(rel, MaxVersion(s.rows, rel) + 1);
      AsideIsStray(s, rel);
    }
  }
}
