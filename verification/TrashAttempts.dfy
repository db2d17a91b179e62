/**
 * Sequences of attempts to move files to the trash, as MoveDeleted makes them: each may fail anywhere, and
 * drops the index rows of its key all the same.
 */
module TrashAttempts {
  import opened Basics
  import opened TrashPaths
  import opened Trash
  import opened TrashCuts

  datatype Move = Move(rel: Path, size: nat, now: int)

  /** A move to attempt: which file, its indexed size, and the clock reading. */
  type Job = m: Move | m.rel != [] witness Move(["a"], 0, 0)

  /** One attempt. The moves that fail are given with where they stop; for a file that is not there, that is at once. */
  function Attempt(s: State, j: Job, fails: map<Path, Failure>, norm: Path -> string): State {
    if j.rel !in fails then MoveOne(s, j.rel, j.size, j.now, norm)
    else Failed(s, j.rel, j.size, j.now, norm, fails[j.rel])
  }

  function Attempting(fails: map<Path, Failure>, norm: Path -> string): (State, Job) -> State {
    (s: State, j: Job) => Attempt(s, j, fails, norm)
  }

  predicate Sized(order: seq<Path>, sizes: map<Path, nat>) {
    forall i | 0 <= i < |order| :: order[i] != [] && order[i] in sizes
  }

  /** The attempts for the paths in `order`, the first at clock reading k. */
  function Jobs(order: seq<Path>, sizes: map<Path, nat>, clock: nat -> int, k: nat): (js: seq<Job>)
    requires Sized(order, sizes)
    ensures |js| == |order| && forall i | 0 <= i < |js| :: js[i] == Move(order[i], sizes[order[i]], clock(k + i))
  {
    seq(|order|, i requires 0 <= i < |order| => Move(order[i], sizes[order[i]], clock(k + i)))
  }

  /** Several attempts one after another. */
  function MoveAll(s: State, jobs: seq<Job>, step: (State, Job) -> State): State {
    if jobs == [] then s else step(MoveAll(s, jobs[..|jobs| - 1], step), jobs[|jobs| - 1])
  }

  lemma MoveAllLast(s: State, jobs: seq<Job>, j: Job, step: (State, Job) -> State)
    ensures MoveAll(s, jobs + [j], step) == step(MoveAll(s, jobs, step), j)
  {
  }

  lemma {:induction false} MoveAllConcat(s: State, a: seq<Job>, b: seq<Job>, step: (State, Job) -> State)
    ensures MoveAll(s, a + b, step) == MoveAll(MoveAll(s, a, step), b, step)
  {
    if b == [] {
      assert a + b == a;
    } else {
      var n := |b| - 1;
      MoveAllConcat(s, a, b[..n], step);
      assert a + b == a + b[..n] + [b[n]];
      MoveAllLast(s, a + b[..n], b[n], step);
    }
  }

  /** The ledger entries of several attempts. */
  function AppendedAll(storage: map<Path, Bytes>, order: seq<Path>, sizes: map<Path, nat>, clock: nat -> int,
                       fails: set<Path>): seq<Entry>
    requires Sized(order, sizes)
  {
    if order == [] then []
    else
      var n := |order| - 1;
      AppendedAll(storage, order[..n], sizes, clock, fails)
      + if order[n] in fails then [] else Appended(storage, order[n], sizes[order[n]], clock(n))
  }

  /** The set of paths in a list. */
  ghost function SetOf(order: seq<Path>): set<Path> {
    set r | r in order
  }

  ghost function KeysOf(order: seq<Path>, norm: Path -> string): set<string> {
    set r | r in order :: norm(r)
  }

  /** The index once every key of an attempted path has been dropped. */
  ghost function Remaining(index: map<Path, nat>, order: seq<Path>, norm: Path -> string): map<Path, nat> {
    map r | r in index && norm(r) !in KeysOf(order, norm) :: index[r]
  }

  lemma SetOfLast(order: seq<Path>, norm: Path -> string)
    requires order != []
    ensures SetOf(order) == SetOf(order[..|order| - 1]) + {order[|order| - 1]}
    ensures KeysOf(order, norm) == KeysOf(order[..|order| - 1], norm) + {norm(order[|order| - 1])}
    ensures Distinct(order) ==> order[|order| - 1] !in order[..|order| - 1] && Distinct(order[..|order| - 1])
  {
  }

  lemma CountOne(tried: set<Path>, rel: Path, fails: set<Path>)
    requires rel !in tried
    ensures |tried + {rel} - fails| == |tried - fails| + if rel in fails then 0 else 1
  {
    if rel in fails {
      assert tried + {rel} - fails == tried - fails;
    } else {
      assert tried + {rel} - fails == (tried - fails) + {rel};
    }
  }

  lemma CountLast(order: seq<Path>, j: nat, fails: set<Path>, norm: Path -> string)
    requires j < |order| && Distinct(order)
    ensures |SetOf(order[..j + 1]) - fails| == |SetOf(order[..j]) - fails| + if order[j] in fails then 0 else 1
  {
    assert order[..j + 1][..j] == order[..j];
    SetOfLast(order[..j + 1], norm);
    CountOne(SetOf(order[..j]), order[j], fails);
  }

  lemma JobsLast(order: seq<Path>, j: nat, sizes: map<Path, nat>, clock: nat -> int, k: nat)
    requires Sized(order, sizes) && j < |order|
    ensures Jobs(order[..j + 1], sizes, clock, k)
            == Jobs(order[..j], sizes, clock, k) + [Move(order[j], sizes[order[j]], clock(k + j))]
  {
  }

  lemma JobsConcat(order: seq<Path>, batch: seq<Path>, sizes: map<Path, nat>, more: map<Path, nat>, clock: nat -> int)
    requires Sized(order, sizes) && Sized(batch, more)
    requires forall i | 0 <= i < |batch| :: batch[i] in sizes && more[batch[i]] == sizes[batch[i]]
    ensures Sized(order + batch, sizes)
    ensures Jobs(order + batch, sizes, clock, 0) == Jobs(order, sizes, clock, 0) + Jobs(batch, more, clock, |order|)
  {
  }

  /** The last attempt after all others. */
  lemma AttemptLast(s: State, order: seq<Path>, sizes: map<Path, nat>, clock: nat -> int, k: nat,
                    step: (State, Job) -> State)
    requires Sized(order, sizes) && order != []
    ensures var n := |order| - 1;
            MoveAll(s, Jobs(order, sizes, clock, k), step)
            == step(MoveAll(s, Jobs(order[..n], sizes, clock, k), step), Move(order[n], sizes[order[n]], clock(k + n)))
  {
    var n := |order| - 1;
    JobsLast(order, n, sizes, clock, k);
    assert order[..n + 1] == order;
    MoveAllLast(s, Jobs(order[..n], sizes, clock, k), Move(order[n], sizes[order[n]], clock(k + n)), step);
  }

  lemma {:induction false} MoveAllIndex(s: State, order: seq<Path>, sizes: map<Path, nat>, clock: nat -> int, k: nat,
                                        fails: map<Path, Failure>, norm: Path -> string)
    requires Sized(order, sizes)
    ensures MoveAll(s, Jobs(order, sizes, clock, k), Attempting(fails, norm)).index
      == Remaining(s.index, order, norm)
  {
    if order != [] {
      var n, step := |order| - 1, Attempting(fails, norm);
      var t, job := MoveAll(s, Jobs(order[..n], sizes, clock, k), step), Move(order[n], sizes[order[n]], clock(k + n));
      MoveAllIndex(s, order[..n], sizes, clock, k, fails, norm);
      AttemptLast(s, order, sizes, clock, k, step);
      AttemptIndex(t, job, fails, norm);
      OneLess(s.index, order, norm);
    }
  }

  lemma AttemptIndex(t: State, j: Job, fails: map<Path, Failure>, norm: Path -> string)
    ensures Attempting(fails, norm)(t, j).index == DropKey(t.index, norm, norm(j.rel))
  {
  }

  lemma OneLess(index: map<Path, nat>, order: seq<Path>, norm: Path -> string)
    requires order != []
    ensures Remaining(index, order, norm)
            == DropKey(Remaining(index, order[..|order| - 1], norm), norm, norm(order[|order| - 1]))
  {
  }

  /**
   * t has, beyond s, one ledger entry for each path of `order` that did not fail and was stored, and no
   * longer stores them.
   */
  ghost predicate Trashed(s: State, t: State, order: seq<Path>, sizes: map<Path, nat>, clock: nat -> int,
                          fails: set<Path>)
    requires Sized(order, sizes)
  {
    && Inv(s) && Inv(t)
    && Ledger(t) == Ledger(s) + AppendedAll(s.storage, order, sizes, clock, fails)
    && t.storage == s.storage - (SetOf(order) - fails)
  }

  lemma TrashedOneMore(s: State, t: State, order: seq<Path>, sizes: map<Path, nat>, clock: nat -> int,
                       fails: map<Path, Failure>, norm: Path -> string)
    requires Sized(order, sizes) && order != [] && Distinct(order) && !LooksLikeSlot(order[|order| - 1])
    requires Trashed(s, t, order[..|order| - 1], sizes, clock, fails.Keys)
    requires var rel := order[|order| - 1]; rel in fails ==> !Harms(t, rel, fails[rel])
    ensures var n := |order| - 1;
            Trashed(s, Attempting(fails, norm)(t, Move(order[n], sizes[order[n]], clock(n))), order, sizes, clock,
                    fails.Keys)
  {
    var n := |order| - 1;
    SetOfLast(order, norm);
    AppendStep(s, t, SetOf(order[..n]), AppendedAll(s.storage, order[..n], sizes, clock, fails.Keys),
      Move(order[n], sizes[order[n]], clock(n)), fails, norm);
  }

  /** No attempted file that is stored fails with a file left in the trash without its row. */
  predicate Harmless(s: State, order: seq<Path>, fails: map<Path, Failure>) {
    forall r | r in order && r in fails :: !Harms(s, r, fails[r])
  }

  lemma AttemptElsewhere(s: State, j: Job, fails: map<Path, Failure>, norm: Path -> string)
    ensures var t := Attempting(fails, norm)(s, j);
            SameElsewhere(s, t, j.rel) && forall r | r != j.rel :: r in t.storage <==> r in s.storage
  {
    if j.rel in s.storage {
      MoveElsewhere(s, j.rel, j.size, j.now, norm, if j.rel in fails then fails[j.rel] else Recorded);
    }
  }

  /** Distinct indexed paths, none of which looks like a slot. */
  predicate Attemptable(order: seq<Path>, sizes: map<Path, nat>) {
    Distinct(order) && Sized(order, sizes) && forall i | 0 <= i < |order| :: !LooksLikeSlot(order[i])
  }

  /** The state after the attempts in `order`. */
  function Attempted(s: State, order: seq<Path>, sizes: map<Path, nat>, clock: nat -> int,
                     fails: map<Path, Failure>, norm: Path -> string): State
    requires Sized(order, sizes)
  {
    MoveAll(s, Jobs(order, sizes, clock, 0), Attempting(fails, norm))
  }

  function LastJob(order: seq<Path>, sizes: map<Path, nat>, clock: nat -> int): (j: Job)
    requires order != [] && Sized(order, sizes)
    ensures j.rel == order[|order| - 1]
  {
    Move(order[|order| - 1], sizes[order[|order| - 1]], clock(|order| - 1))
  }

  lemma AttemptedLast(s: State, order: seq<Path>, sizes: map<Path, nat>, clock: nat -> int,
                      fails: map<Path, Failure>, norm: Path -> string)
    requires Sized(order, sizes) && order != []
    ensures Sized(order[..|order| - 1], sizes)
    ensures Attempted(s, order, sizes, clock, fails, norm)
      == Attempting(fails, norm)(Attempted(s, order[..|order| - 1], sizes, clock, fails, norm),
                                 LastJob(order, sizes, clock))
  {
    AttemptLast(s, order, sizes, clock, 0, Attempting(fails, norm));
  }

  lemma AttemptableInit(order: seq<Path>, sizes: map<Path, nat>)
    requires Attemptable(order, sizes) && order != []
    ensures var n := |order| - 1;
            Attemptable(order[..n], sizes) && order[n] != [] && !LooksLikeSlot(order[n]) && order[n] !in order[..n]
  {
  }

  /** Attempts on other paths leave a path's file and its canonical copy where they are. */
  lemma {:induction false} AttemptedElsewhere(s: State, order: seq<Path>, sizes: map<Path, nat>, clock: nat -> int,
                                              fails: map<Path, Failure>, norm: Path -> string, rel: Path)
    requires Attemptable(order, sizes) && rel != [] && !LooksLikeSlot(rel) && rel !in order
    ensures var t := Attempted(s, order, sizes, clock, fails, norm);
            (rel in t.storage <==> rel in s.storage) && (rel in t.bin <==> rel in s.bin)
  {
    if order != [] {
      var n := |order| - 1;
      AttemptableInit(order, sizes);
      AttemptedElsewhere(s, order[..n], sizes, clock, fails, norm, rel);
      AttemptedLast(s, order, sizes, clock, fails, norm);
      assert rel != order[n];
      NotOf(rel, order[n]);
      AttemptElsewhere(Attempted(s, order[..n], sizes, clock, fails, norm), LastJob(order, sizes, clock), fails, norm);
    }
  }

  /** The canonical slot of a path is no slot of another. */
  lemma NotOf(rel: Path, other: Path)
    requires rel != [] && other != [] && !LooksLikeSlot(rel) && !LooksLikeSlot(other) && rel != other
    ensures !OfPath(rel, other)
  {
    CanonicalOf(rel);
    if OfPath(rel, other) {
      OfOnePath(rel, rel, other);
    }
  }

  lemma HarmlessLast(s: State, order: seq<Path>, fails: map<Path, Failure>)
    requires order != []
    ensures var n := |order| - 1;
            Harmless(s, order, fails)
            <==> Harmless(s, order[..n], fails) && (order[n] in fails ==> !Harms(s, order[n], fails[order[n]]))
  {
    assert order == order[..|order| - 1] + [order[|order| - 1]];
  }

  /** Earlier attempts on other paths make no difference to whether a failure does harm. */
  lemma HarmsLater(s: State, order: seq<Path>, sizes: map<Path, nat>, clock: nat -> int,
                   fails: map<Path, Failure>, norm: Path -> string, c: Failure)
    requires Attemptable(order, sizes) && order != []
    ensures var n := |order| - 1;
            Sized(order[..n], sizes)
            && (Harms(Attempted(s, order[..n], sizes, clock, fails, norm), order[n], c) <==> Harms(s, order[n], c))
  {
    AttemptableInit(order, sizes);
    AttemptedElsewhere(s, order[..|order| - 1], sizes, clock, fails, norm, order[|order| - 1]);
  }

  /**
   * Moving distinct files trashes exactly them, unless a failure leaves a file without its row: each one that
   * did not fail and was in the storage gets one ledger entry with its own content and index size, and only
   * those leave the storage.
   */
  lemma {:induction false} MoveAllAppends(s: State, order: seq<Path>, sizes: map<Path, nat>, clock: nat -> int,
                                          fails: map<Path, Failure>, norm: Path -> string)
    requires Inv(s) && Attemptable(order, sizes) && Harmless(s, order, fails)
    ensures Trashed(s, Attempted(s, order, sizes, clock, fails, norm), order, sizes, clock, fails.Keys)
  {
    if order == [] {
      TrashedNone(s, sizes, clock, fails.Keys);
    } else {
      var n := |order| - 1;
      AttemptableInit(order, sizes);
      HarmlessLast(s, order, fails);
      MoveAllAppends(s, order[..n], sizes, clock, fails, norm);
      AttemptedLast(s, order, sizes, clock, fails, norm);
      if order[n] in fails {
        HarmsLater(s, order, sizes, clock, fails, norm, fails[order[n]]);
      }
      TrashedOneMore(s, Attempted(s, order[..n], sizes, clock, fails, norm), order, sizes, clock, fails, norm);
    }
  }

  /** After a harmful failure some file stays without a row, whatever the later attempts do. */
  lemma {:induction false} HarmStays(s: State, order: seq<Path>, sizes: map<Path, nat>, clock: nat -> int,
                                     fails: map<Path, Failure>, norm: Path -> string) returns (p: Path, r: Path)
    requires Inv(s) && Attemptable(order, sizes) && !Harmless(s, order, fails)
    ensures r in order && r != [] && !LooksLikeSlot(r) && OfPath(p, r)
    ensures Stray(Attempted(s, order, sizes, clock, fails, norm), p)
  {
    var n, job := |order| - 1, LastJob(order, sizes, clock);
    AttemptableInit(order, sizes);
    HarmlessLast(s, order, fails);
    AttemptedLast(s, order, sizes, clock, fails, norm);
    var t := Attempted(s, order[..n], sizes, clock, fails, norm);
    if Harmless(s, order[..n], fails) {
      MoveAllAppends(s, order[..n], sizes, clock, fails, norm);
      r := order[n];
      HarmsLater(s, order, sizes, clock, fails, norm, fails[r]);
      p := HarmIsStray(t, r, job.size, job.now, norm, fails[r]);
    } else {
      p, r := HarmStays(s, order[..n], sizes, clock, fails, norm);
      StrayStays(t, job, fails, norm, p, r);
    }
  }

  lemma StrayStays(s: State, j: Job, fails: map<Path, Failure>, norm: Path -> string, p: Path, r: Path)
    requires r != [] && OfPath(p, r) && Stray(s, p) && r != j.rel && !LooksLikeSlot(r) && !LooksLikeSlot(j.rel)
    ensures Stray(Attempting(fails, norm)(s, j), p)
  {
    AttemptElsewhere(s, j, fails, norm);
    if OfPath(p, j.rel) {
      OfOnePath(p, r, j.rel);
    }
  }

  /**
   * After a sequence of attempts on distinct files, failing wherever they do, rows and disk are in step if and
   * only if no stored file failed with a file left in the trash without its row.
   */
  lemma AttemptsKeepInvIff(s: State, order: seq<Path>, sizes: map<Path, nat>, clock: nat -> int,
                           fails: map<Path, Failure>, norm: Path -> string)
    requires Inv(s) && Attemptable(order, sizes)
    ensures Inv(Attempted(s, order, sizes, clock, fails, norm)) <==> Harmless(s, order, fails)
  {
    if Harmless(s, order, fails) {
      MoveAllAppends(s, order, sizes, clock, fails, norm);
    } else {
      var p, r := HarmStays(s, order, sizes, clock, fails, norm);
      StrayBreaks(Attempted(s, order, sizes, clock, fails, norm), p);
    }
  }

  lemma TrashedNone(s: State, sizes: map<Path, nat>, clock: nat -> int, fails: set<Path>)
    requires Inv(s)
    ensures Trashed(s, s, [], sizes, clock, fails)
  {
    assert Ledger(s) + [] == Ledger(s);
    assert s.storage - {} == s.storage;
  }

  lemma AppendStep(s: State, t: State, tried: set<Path>, m: seq<Entry>, j: Job, fails: map<Path, Failure>,
                   norm: Path -> string)
    requires Inv(s) && Inv(t) && Ledger(t) == Ledger(s) + m && t.storage == s.storage - (tried - fails.Keys)
    requires j.rel !in tried && !LooksLikeSlot(j.rel) && (j.rel in fails ==> !Harms(t, j.rel, fails[j.rel]))
    ensures var u := Attempting(fails, norm)(t, j);
            && Inv(u)
            && Ledger(u) == Ledger(s) + (m + if j.rel in fails then [] else Appended(s.storage, j.rel, j.size, j.now))
            && u.storage == s.storage - (tried + {j.rel} - fails.Keys)
  {
    AttemptAppends(t, j, fails, norm);
    OneMore(s.storage, t.storage, tried, j.rel, fails.Keys, Ledger(s), m, j.size, j.now);
  }

  lemma OneMore(before: map<Path, Bytes>, after: map<Path, Bytes>, tried: set<Path>, rel: Path, fails: set<Path>,
                l: seq<Entry>, m: seq<Entry>, size: nat, now: int)
    requires after == before - (tried - fails) && rel !in tried
    ensures after - ({rel} - fails) == before - (tried + {rel} - fails)
    ensures rel !in fails ==> Appended(after, rel, size, now) == Appended(before, rel, size, now)
    ensures l + m + Appended(before, rel, size, now) == l + (m + Appended(before, rel, size, now))
    ensures l + m + [] == l + (m + [])
  {
  }

  lemma AttemptAppends(s: State, j: Job, fails: map<Path, Failure>, norm: Path -> string)
    requires Inv(s) && !LooksLikeSlot(j.rel) && (j.rel in fails ==> !Harms(s, j.rel, fails[j.rel]))
    ensures var t := Attempt(s, j, fails, norm);
            && Inv(t)
            && Ledger(t) == Ledger(s) + (if j.rel in fails then [] else Appended(s.storage, j.rel, j.size, j.now))
            && t.storage == s.storage - ({j.rel} - fails.Keys)
  {
    if j.rel in fails {
      FailedLeaves(s, j.rel, j.size, j.now, norm, fails[j.rel]);
      assert Ledger(s) + [] == Ledger(s);
      assert s.storage - {} == s.storage;
    } else {
      MoveOneAppends(s, j.rel, j.size, j.now, norm);
    }
  }
}
