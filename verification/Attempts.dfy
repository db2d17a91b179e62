/**
 * Attempts in a row: how a download gets on when nothing fails, when every connection is cut short, and
 * how it can be stuck.
 */
module Attempts {
  import opened Basics
  import opened Frames
  import opened Delta
  import opened Serving
  import opened Resume
  import opened GetRules
  import opened DeltaRules
  import opened Download

  // ---- No failure ----

  /** Nothing fails and the client sends everything: the attempt succeeds exactly when the saved bytes fit. */
  lemma UndisturbedSucceedsIff(b: Files, fs: seq<Frame>, w: Version, tol: int)
    requires WholeAnswer(fs, w, |Saved(b)|)
    ensures Succeeds(b, fs, NO_FAULTS, tol) <==> CanResume(b, |w.content|, w.mtime, tol)
  {
  }

  /** The client supports deltas, and the delta is used and need not fall back. */
  predicate DeltaWorks(b: Files, c: DeltaConfig, supported: bool) {
    supported && TriesDelta(b, c) && !TooManyHashes(|b.target.value|, c)
  }

  /** The client's answer to a delta request, if one is made, of which the connection carries `cut` frames. */
  method AnswerDelta<H(!new, ==)>(b: Files, c: DeltaConfig, hash: Bytes -> H, supported: bool, w: Version, cut: nat)
    returns (fs: seq<Frame>)
    requires TriesDelta(b, c) ==> NoCollision(b.target.value, w.content, c.bs, hash)
    requires cut > 0
    ensures TriesDelta(b, c) ==> HonestDelta(fs, b.target.value, c.bs, hash, w)
    ensures Answers(b, c, supported, fs)
    ensures DeltaWorks(b, c, supported) ==>
              CutAnswer(fs, Min(cut, BlockCount(|w.content|, c.bs) + 2), b.target.value, c.bs, hash, w)
  {
    fs := [Error(Unsupported)];
    if supported && c.min > 0 && c.bs > 0 && b.target.Some? {
      var prev := b.target.value;
      if |prev| >= c.min {
        var hashes := HashBlocks(prev, c.bs, hash);
        var whole := HandleDelta(Found(w), c.bs, hashes, hash, BlockCount(|w.content|, c.bs));
        fs := whole[..Min(cut, |whole|)];
        WholeDelta(prev, c.bs, whole, hash, w);
        CutIsDeltaAnswer(fs, whole, w, c.bs, hashes, hash);
      }
    }
    assert [] + fs == fs;
  }

  /** An answer cut behind its first data frame is whole, or carries some bytes and no end marker. */
  lemma CutCarries(whole: seq<Frame>, w: Version, offset: nat, k: nat)
    requires WholeAnswer(whole, w, offset) && NoEmptyData(whole) && 2 <= k <= |whole|
    ensures GetAnswer(whole[..k], w, offset)
    ensures k == |whole| || (DataRun(whole[..k][1..]) == |whole[..k][1..]| && Payload(whole[..k][1..]) != [])
  {
    CutIsAnswer(whole[..k], whole, w, offset);
    if k < |whole| {
      var rest := whole[..k][1..];
      assert forall i | 0 <= i < k - 1 :: rest[i] == whole[1..][i] == whole[i + 1];
      RunIs(rest, k - 1);
      CarriedGrows(rest, 1, k - 1);
      assert rest[0].data != [];
      assert Carried(rest, 1) == [] + rest[0].data;
    }
  }

  /** What a GET attempt comes to of which the connection carries the first `cut` frames of the whole answer. */
  lemma CutFetch(m: Manager, b: Files, whole: seq<Frame>, k: nat, w: Version, r: Outcome)
    requires WholeAnswer(whole, w, |Saved(b)|) && NoEmptyData(whole) && 2 <= k <= |whole|
    requires Honest(b, whole[..k], w, m.tolerance) && m.GetResult(b, [], whole[..k], NO_FAULTS, r)
    ensures !CanResume(b, |w.content|, w.mtime, m.tolerance) ==> !r.ok && m.files == Files(None, None, b.target)
    ensures CanResume(b, |w.content|, w.mtime, m.tolerance) && k == |whole| ==> r.ok
    ensures CanResume(b, |w.content|, w.mtime, m.tolerance) && !r.ok ==>
              && m.files.meta == Some(MetaOf(w)) && m.files.target == b.target
              && |Saved(b)| < |Saved(m.files)| <= |w.content|
  {
    var fs := whole[..k];
    CutCarries(whole, w, |Saved(b)|, k);
    UndisturbedSucceedsIff(b, whole, w, m.tolerance);
    assert k == |whole| ==> fs == whole;
    HonestFits(fs[1..], w.content, |Saved(b)|, NO_FAULTS);
    assert Gained(fs[1..], NO_FAULTS) == Payload(fs[1..]);
  }

  /** What a delta attempt comes to of which the connection carries the first k frames of the whole answer. */
  lemma CutDeltaAttempt<H(!new)>(m: Manager, b: Files, bs: nat, fs: seq<Frame>, k: nat,
                                  hash: Bytes -> H, w: Version, r: Outcome)
    requires bs > 0 && b.target.Some? && NoCollision(b.target.value, w.content, bs, hash)
    requires 1 <= k <= BlockCount(|w.content|, bs) + 2 && CutAnswer(fs, k, b.target.value, bs, hash, w)
    requires m.DeltaResult(b, bs, [], fs, NO_DELTA_FAULTS, r)
    ensures r.ok <==> k == BlockCount(|w.content|, bs) + 2
    ensures !r.ok ==> m.files == Files(Some(w.content[..UpTo(|w.content|, bs, k - 1)]), None, b.target)
  {
    if k == BlockCount(|w.content|, bs) + 2 {
      WholeDelta(b.target.value, bs, fs, hash, w);
    } else {
      CutDelta(fs, k, b.target.value, bs, hash, w);
    }
  }

  /**
   * An attempt from disk b whose connection carries `cut` frames of the answer ends with disk a. If the delta
   * works, all of its answer must arrive, and otherwise the bytes saved before are gone with their description.
   */
  predicate CutResult(b: Files, a: Files, c: DeltaConfig, supported: bool, w: Version, tol: int, cut: nat, ok: bool) {
    if DeltaWorks(b, c, supported)
    then && (ok <==> cut >= BlockCount(|w.content|, c.bs) + 2)
         && (!ok ==> cut > 0 && a == Files(Some(w.content[..UpTo(|w.content|, c.bs, cut - 1)]), None, b.target))
    else CutOutcome(b, a, w, tol, cut, ok)
  }

  /** A full download from disk b, of which the connection carries `cut` frames, ends with disk a. */
  predicate CutOutcome(b: Files, a: Files, w: Version, tol: int, cut: nat, ok: bool) {
    if |Saved(b)| > |w.content| then !ok && a == b
    else if !CanResume(b, |w.content|, w.mtime, tol) then !ok && a == Files(None, None, b.target)
    else && (cut >= |w.content| + 2 ==> ok)
         && (!ok ==> a.target == b.target && a.meta == Some(MetaOf(w)) && |Saved(b)| < |Saved(a)| <= |w.content|)
  }

  /** The client's answer to a GET request, of which the connection carries `cut` frames. */
  method AnswerGet(w: Version, offset: nat, chunk: nat, cut: nat) returns (fs: seq<Frame>, ghost whole: seq<Frame>)
    requires chunk > 0
    ensures GetAnswer(fs, w, offset) && IsCut(fs, whole, w, offset, cut)
  {
    var all := HandleGet(Found(w), offset, chunk, _ => Read(chunk, More));
    whole := all;
    fs := if offset > |w.content| then all else all[..Min(cut, |all|)];
    CutIsAnswer(fs, whole, w, offset);
  }

  /** The refusal of an offset that is too large, or the first `cut` frames of the whole answer. */
  predicate IsCut(fs: seq<Frame>, whole: seq<Frame>, w: Version, offset: nat, cut: nat) {
    if offset > |w.content| then fs == [Error(BadOffset)]
    else && WholeAnswer(whole, w, offset) && NoEmptyData(whole) && |whole| <= |w.content| - offset + 2
         && fs == whole[..Min(cut, |whole|)]
  }

  lemma CutGetAttempt(m: Manager, b: Files, whole: seq<Frame>, fs: seq<Frame>, cut: nat, w: Version, r: Outcome)
    requires IsCut(fs, whole, w, |Saved(b)|, cut) && cut >= 2 && m.GetResult(b, [], fs, NO_FAULTS, r)
    requires CanResume(b, |w.content|, w.mtime, m.tolerance) && |Saved(b)| <= |w.content| ==> Saved(b) <= w.content
    ensures CutOutcome(b, m.files, w, m.tolerance, cut, r.ok)
    ensures !r.ok ==> m.files.target == b.target
  {
    if |Saved(b)| <= |w.content| {
      CutIsAnswer(fs, whole, w, |Saved(b)|);
      CutFetch(m, b, whole, Min(cut, |whole|), w, r);
    }
  }

  /** With no failure on the server's side, no description stays, so every state is safe. */
  lemma NothingStale(m: Manager, b: Files, c: DeltaConfig, da: seq<Frame>, ga: seq<Frame>, versions: set<Version>)
    ensures m.KeepsSafe(b, c, da, NO_DELTA_FAULTS, ga, NO_FAULTS, versions)
  {
  }

  /** On a drained connection, an attempt is the delta where it works and otherwise the full download. */
  lemma DrainedResult(m: Manager, b: Files, c: DeltaConfig, supported: bool, da: seq<Frame>, ga: seq<Frame>, r: Outcome)
    requires m.OneResult(b, [], c, da, NO_DELTA_FAULTS, ga, NO_FAULTS, r)
    requires Answers(b, c, supported, da)
    ensures if DeltaWorks(b, c, supported) then m.DeltaResult(b, c.bs, [], da, NO_DELTA_FAULTS, r)
            else m.GetResult(b, [], ga, NO_FAULTS, r)
  {
    assert [] + ga == ga && [] + da == da;
  }

  /** The answer to the delta request leads to the delta exactly where it works, and is used up otherwise. */
  predicate Answers(b: Files, c: DeltaConfig, supported: bool, da: seq<Frame>) {
    && (UsesDelta(b, c, [] + da, NO_DELTA_FAULTS) <==> DeltaWorks(b, c, supported))
    && (!DeltaWorks(b, c, supported) ==> AfterFallback(b, c, [], da, NO_DELTA_FAULTS) == [])
  }

  /** An attempt on a drained connection to a truthful client, no step failing on the server's side. */
  method CleanStep<H(!new, ==)>(m: Manager, c: DeltaConfig, hash: Bytes -> H, ghost supported: bool, da: seq<Frame>,
                                ga: seq<Frame>, ghost w: Version, ghost versions: set<Version>,
                                ghost was: Option<Bytes>)
    returns (r: Outcome)
    requires m.Trusts(m.files, m.inbox, w, versions, was) && GetAnswer(ga, w, |Saved(m.files)|)
    requires TriesDelta(m.files, c) ==> HonestDelta(da, m.files.target.value, c.bs, hash, w)
    requires Answers(m.files, c, supported, da)
    modifies m
    ensures if DeltaWorks(old(m.files), c, supported) then m.DeltaResult(old(m.files), c.bs, [], da, NO_DELTA_FAULTS, r)
            else m.GetResult(old(m.files), [], ga, NO_FAULTS, r)
    ensures Safe(m.files, versions, was) && (r.ok ==> m.IsNow(w))
    ensures !r.ok ==> m.index == old(m.index) && m.done == old(m.done)
  {
    ghost var b := m.files;
    NothingStale(m, b, c, da, ga, versions);
    r := m.DownloadOne(true, c, hash, da, NO_DELTA_FAULTS, ga, NO_FAULTS, w, versions, was);
    DrainedResult(m, b, c, supported, da, ga, r);
    assert m.files in m.trace;
  }

  lemma CutOne<H(!new)>(m: Manager, b: Files, c: DeltaConfig, hash: Bytes -> H, supported: bool, w: Version, cut: nat,
                        da: seq<Frame>, ga: seq<Frame>, whole: seq<Frame>, r: Outcome)
    requires cut >= 2
    requires if DeltaWorks(b, c, supported) then m.DeltaResult(b, c.bs, [], da, NO_DELTA_FAULTS, r)
             else m.GetResult(b, [], ga, NO_FAULTS, r)
    requires DeltaWorks(b, c, supported) ==>
               && NoCollision(b.target.value, w.content, c.bs, hash)
               && CutAnswer(da, Min(cut, BlockCount(|w.content|, c.bs) + 2), b.target.value, c.bs, hash, w)
    requires IsCut(ga, whole, w, |Saved(b)|, cut)
    requires CanResume(b, |w.content|, w.mtime, m.tolerance) ==> Saved(b) <= w.content
    ensures CutResult(b, m.files, c, supported, w, m.tolerance, cut, r.ok) && (!r.ok ==> m.files.target == b.target)
  {
    if DeltaWorks(b, c, supported) {
      CutDeltaAttempt(m, b, c.bs, da, Min(cut, BlockCount(|w.content|, c.bs) + 2), hash, w, r);
    } else {
      CutGetAttempt(m, b, whole, ga, cut, w, r);
    }
  }

  /** The client's answers of one attempt, cut, and the attempt. */
  method CutStep<H(!new, ==)>(m: Manager, c: DeltaConfig, hash: Bytes -> H, supported: bool, w: Version,
                              chunk: nat, cut: nat, ghost versions: set<Version>, ghost was: Option<Bytes>)
    returns (r: Outcome)
    requires m.Trusts(m.files, m.inbox, w, versions, was) && chunk > 0 && cut >= 2
    requires TriesDelta(m.files, c) ==> NoCollision(m.files.target.value, w.content, c.bs, hash)
    requires CanResume(m.files, |w.content|, w.mtime, m.tolerance) ==> Saved(m.files) <= w.content
    modifies m
    ensures Safe(m.files, versions, was) && (r.ok ==> m.IsNow(w))
    ensures !r.ok ==> m.files.target == old(m.files).target && m.index == old(m.index) && m.done == old(m.done)
    ensures CutResult(old(m.files), m.files, c, supported, w, m.tolerance, cut, r.ok)
  {
    ghost var b := m.files;
    var da := AnswerDelta(m.files, c, hash, supported, w, cut);
    var ga, whole := AnswerGet(w, |Saved(m.files)|, chunk, cut);
    r := CleanStep(m, c, hash, supported, da, ga, w, versions, was);
    CutOne(m, b, c, hash, supported, w, cut, da, ga, whole, r);
  }

  /** One attempt whose connection carries `cut` frames of the answer and then is lost, no other step failing. */
  method CutAttempt<H(!new, ==)>(m: Manager, c: DeltaConfig, hash: Bytes -> H, supported: bool, w: Version,
                                 chunk: nat, cut: nat, ghost versions: set<Version>, ghost was: Option<Bytes>)
    returns (ok: bool)
    requires m.inbox == [] && chunk > 0 && cut >= 2 && w in versions && SameMeansSame(versions, m.tolerance)
    requires Safe(m.files, versions, was)
    requires TriesDelta(m.files, c) ==> NoCollision(m.files.target.value, w.content, c.bs, hash)
    modifies m
    ensures m.inbox == [] && Safe(m.files, versions, was)
    ensures if ok then m.IsNow(w)
            else m.files.target == old(m.files).target && m.index == old(m.index) && m.done == old(m.done)
    ensures CutResult(old(m.files), m.files, c, supported, w, m.tolerance, cut, ok)
  {
    ghost var b := m.files;
    if CanResume(b, |w.content|, w.mtime, m.tolerance) {
      SavedIsPrefix(b, w, versions, was, m.tolerance);
    }
    var r := CutStep(m, c, hash, supported, w, chunk, cut, versions, was);
    m.inbox := [];
    ok := r.ok;
  }

  lemma BlocksAreBytes(n: nat, bs: nat)
    ensures bs > 0 ==> BlockCount(n, bs) <= n
  {
    if bs > 0 && BlockCount(n, bs) > n {
      BlockStep(n, bs, n);
      TimesMonotone(1, bs, n);
    }
  }

  /** One attempt against a client that sends all of w, with no failure on either side. */
  method CleanAttempt<H(!new, ==)>(m: Manager, c: DeltaConfig, hash: Bytes -> H, supported: bool, w: Version,
                                   chunk: nat, ghost versions: set<Version>, ghost was: Option<Bytes>)
    returns (ok: bool)
    requires m.inbox == [] && chunk > 0 && w in versions && SameMeansSame(versions, m.tolerance)
    requires Safe(m.files, versions, was)
    requires TriesDelta(m.files, c) ==> NoCollision(m.files.target.value, w.content, c.bs, hash)
    modifies m
    ensures m.inbox == [] && Safe(m.files, versions, was)
    ensures ok <==> DeltaWorks(old(m.files), c, supported)
                    || (CanResume(old(m.files), |w.content|, w.mtime, m.tolerance)
                        && |Saved(old(m.files))| <= |w.content|)
    ensures ok ==> m.IsNow(w)
    ensures !ok ==> m.files == if |Saved(old(m.files))| > |w.content| then old(m.files)
                               else Files(None, None, old(m.files).target)
  {
    BlocksAreBytes(|w.content|, c.bs);
    ok := CutAttempt(m, c, hash, supported, w, chunk, |w.content| + 2, versions, was);
  }

  // ---- Attempts in a row ----

  /**
   * Progress without failures: two or more attempts store the client's version exactly when it is no
   * shorter than the saved bytes, or the delta works; otherwise nothing ever changes.
   */
  method Retry<H(!new, ==)>(m: Manager, c: DeltaConfig, hash: Bytes -> H, supported: bool, w: Version, chunk: nat,
                            attempts: nat, ghost versions: set<Version>, ghost was: Option<Bytes>)
    returns (ok: bool)
    requires m.inbox == [] && chunk > 0 && w in versions && SameMeansSame(versions, m.tolerance)
    requires Safe(m.files, versions, was)
    requires TriesDelta(m.files, c) ==> NoCollision(m.files.target.value, w.content, c.bs, hash)
    modifies m
    ensures attempts >= 2 ==> (ok <==> |Saved(old(m.files))| <= |w.content| || DeltaWorks(old(m.files), c, supported))
    ensures ok ==> m.IsNow(w)
    ensures |Saved(old(m.files))| > |w.content| && !DeltaWorks(old(m.files), c, supported) ==>
              !ok && m.files == old(m.files)
  {
    ok := false;
    ghost var stuck := |Saved(m.files)| > |w.content|;
    for i := 0 to attempts
      invariant m.inbox == [] && Safe(m.files, versions, was) && m.files.target == old(m.files).target
      invariant stuck || i == 0 ==> m.files == old(m.files)
      invariant stuck && i > 0 ==> !DeltaWorks(m.files, c, supported)
      invariant !stuck && i > 0 ==> Saved(m.files) == [] && i == 1
    {
      ok := CleanAttempt(m, c, hash, supported, w, chunk, versions, was);
      if ok {
        return;
      }
    }
  }

  /** How many attempts a full download needs at most when every connection carries some data. */
  function Bound(b: Files, w: Version, tol: int): int {
    if CanResume(b, |w.content|, w.mtime, tol) then |w.content| - |Saved(b)| + 1 else |w.content| + 2
  }

  /** After n cut delta attempts from disk b. */
  predicate DeltaCutSoFar(a: Files, bs: nat, w: Version, cuts: nat -> nat, n: nat, ok: bool)
    requires bs > 0
  {
    && (forall i | 0 <= i < n && (!ok || i < n - 1) :: cuts(i) < BlockCount(|w.content|, bs) + 2)
    && (ok ==> n > 0 && cuts(n - 1) >= BlockCount(|w.content|, bs) + 2)
    && (!ok && n > 0 ==> a.meta.None?)
  }

  /** After n cut full downloads from disk b. */
  predicate GetCutSoFar(b: Files, a: Files, w: Version, tol: int, n: nat, ok: bool) {
    if |Saved(b)| > |w.content| then !ok && a == b
    else && n <= Bound(b, w, tol)
         && (!ok ==> && |Saved(a)| <= |w.content|
                     && if CanResume(a, |w.content|, w.mtime, tol) then n + Bound(a, w, tol) <= Bound(b, w, tol)
                        else n == 0 && a == b)
  }

  lemma DeltaCutNext(b: Files, a: Files, c: DeltaConfig, supported: bool, w: Version, tol: int,
                     cuts: nat -> nat, n: nat, ok: bool)
    requires DeltaWorks(b, c, supported) && CutResult(b, a, c, supported, w, tol, cuts(n), ok)
    requires DeltaCutSoFar(b, c.bs, w, cuts, n, false)
    ensures DeltaCutSoFar(a, c.bs, w, cuts, n + 1, ok)
  {
  }

  lemma GetCutNext(b0: Files, b: Files, a: Files, w: Version, tol: int, cut: nat, n: nat, ok: bool)
    requires CutOutcome(b, a, w, tol, cut, ok) && GetCutSoFar(b0, b, w, tol, n, false) && tol >= 0
    ensures GetCutSoFar(b0, a, w, tol, n + 1, ok)
  {
  }

  /**
   * Progress when every connection is lost behind its first data frame or later. If the delta works, an
   * attempt succeeds exactly when its connection carries the whole answer, and otherwise nothing is gained:
   * the stored copy is as before and what was saved is gone. If it does not, the file is complete after at
   * most two attempts more than the bytes still missing, or never when the source has become too short.
   */
  method CutRetry<H(!new, ==)>(m: Manager, c: DeltaConfig, hash: Bytes -> H, supported: bool, w: Version, chunk: nat,
                               cuts: nat -> nat, limit: nat, ghost versions: set<Version>, ghost was: Option<Bytes>)
    returns (ok: bool, attempts: nat)
    requires m.inbox == [] && chunk > 0 && m.tolerance >= 0 && w in versions && SameMeansSame(versions, m.tolerance)
    requires Safe(m.files, versions, was) && forall i :: cuts(i) >= 2
    requires TriesDelta(m.files, c) ==> NoCollision(m.files.target.value, w.content, c.bs, hash)
    modifies m
    ensures attempts <= limit && (!ok ==> attempts == limit)
    ensures if ok then m.IsNow(w)
            else m.files.target == old(m.files).target && m.index == old(m.index) && m.done == old(m.done)
    ensures DeltaWorks(old(m.files), c, supported) ==>
              && (ok <==> exists i | 0 <= i < limit :: cuts(i) >= BlockCount(|w.content|, c.bs) + 2)
              && (!ok && limit > 0 ==> m.files.meta.None?)
    ensures !DeltaWorks(old(m.files), c, supported) && |Saved(old(m.files))| > |w.content| ==>
              !ok && m.files == old(m.files)
    ensures !DeltaWorks(old(m.files), c, supported) && |Saved(old(m.files))| <= |w.content| ==>
              var bound := Bound(old(m.files), w, m.tolerance);
              attempts <= bound && (limit >= bound ==> ok)
  {
    ok, attempts := false, 0;
    ghost var b, works := m.files, DeltaWorks(m.files, c, supported);
    while attempts < limit && !ok
      invariant attempts <= limit && m.inbox == [] && Safe(m.files, versions, was)
      invariant if ok then m.IsNow(w)
                else m.files.target == b.target && m.index == old(m.index) && m.done == old(m.done)
      invariant !ok ==> DeltaWorks(m.files, c, supported) == works
      invariant if works then DeltaCutSoFar(m.files, c.bs, w, cuts, attempts, ok)
                else GetCutSoFar(b, m.files, w, m.tolerance, attempts, ok)
      decreases limit - attempts, !ok
    {
      ghost var now := m.files;
      ok := CutAttempt(m, c, hash, supported, w, chunk, cuts(attempts), versions, was);
      if works {
        DeltaCutNext(now, m.files, c, supported, w, m.tolerance, cuts, attempts, ok);
      } else {
        GetCutNext(b, now, m.files, w, m.tolerance, cuts(attempts), attempts, ok);
      }
      attempts := attempts + 1;
    }
  }
}
