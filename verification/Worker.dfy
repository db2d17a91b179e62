/**
 * A worker's task from taking it to letting go of it: processTask over downloadOne, with the client's
 * answers, lost connections, failing steps, retries and cancellation. The task table and the disk are
 * brought together here.
 */
module Worker {
  import opened Basics
  import opened Frames
  import opened Delta
  import opened Serving
  import opened Resume
  import opened GetRules
  import opened DeltaRules
  import opened Download
  import opened Tables
  import opened Queue
  import Pool

  /**
   * What one attempt meets: the client's current version, or why it refuses; how its reads go, whether it
   * supports deltas and how many blocks it can read; how many frames of each answer the connection carries;
   * and the steps that fail on the server's side.
   */
  datatype Round = Round(version: Version, refusal: Option<ErrorCode>, chunk: nat, input: nat -> Read,
                         supported: bool, readable: nat, deltaCut: nat, getCut: nat,
                         deltaFaults: DeltaFaults, getFaults: Faults)

  function Lookup(d: Round): Lookup {
    if d.refusal.Some? then Refused(d.refusal.value) else Found(d.version)
  }

  /** Reads advance until they end or fail. */
  ghost predicate Reads(d: Round) {
    d.chunk > 0 && forall i :: d.input(i).n > 0 || !d.input(i).end.More?
  }

  /** No local step fails in front of frames that are on their way, and no description stays unnoticed. */
  predicate Clean(d: Round) {
    && Opens(d.getFaults) && d.getFaults.writeAt.None? && !d.getFaults.meta.Unchanged?
    && DeltaOpens(d.deltaFaults) && d.deltaFaults.writeAt.None? && d.deltaFaults.readOld.None?
    && !d.deltaFaults.removeMeta
  }

  /** No block of a version collides with one of a copy that can be stored. */
  ghost predicate NoHarm<H(!new)>(versions: set<Version>, was: Option<Bytes>, bs: nat, hash: Bytes -> H) {
    bs > 0 ==>
      && (was.Some? ==> forall v | v in versions :: NoCollision(was.value, v.content, bs, hash))
      && forall u, v | u in versions && v in versions :: NoCollision(u.content, v.content, bs, hash)
  }

  lemma StoredCopyIsNoHarm<H(!new)>(b: Files, v: Version, versions: set<Version>, was: Option<Bytes>, bs: nat,
                                    hash: Bytes -> H)
    requires Safe(b, versions, was) && NoHarm(versions, was, bs, hash) && v in versions && bs > 0 && b.target.Some?
    ensures NoCollision(b.target.value, v.content, bs, hash)
  {
  }

  /** The client refuses, and its refusal reaches the server whichever way the file is asked for. */
  predicate Refuses(d: Round) {
    d.refusal.Some? && d.deltaCut > 0 && d.getCut > 0 && !d.deltaFaults.send && !d.getFaults.send
  }

  /** The client says that it has no such file. */
  predicate Missing(d: Round) {
    Refuses(d) && d.refusal == Some(NotFound)
  }

  /** Nothing of what the client answers arrives. */
  predicate Silent(d: Round) {
    d.deltaCut == 0 && d.getCut == 0
  }

  /** What the answers begin with, if they arrive: a refusal, or nothing that says the file is missing. */
  predicate RefusalArrives(b: Files, c: DeltaConfig, d: Round, da: seq<Frame>, ga: seq<Frame>) {
    && (if d.getCut > 0 then ga != [] else ga == []) && (d.deltaCut == 0 ==> da == [])
    && (TriesDelta(b, c) && d.deltaCut > 0 ==> da != [])
    && (da != [] && da[0].Error? ==> |da| == 1 && (d.refusal.Some? || da[0].code != NotFound))
    && (ga != [] && ga[0].Error? ==> d.refusal.Some? || ga[0].code != NotFound)
    && (d.refusal.Some? && da != [] ==> da[0] == Error(d.refusal.value) || da[0] == Error(Unsupported))
    && (d.refusal.Some? && ga != [] ==> ga[0] == Error(d.refusal.value))
  }

  /** The answers of the client, as far as the connection carries them. */
  method Answer<H(!new, ==)>(b: Files, c: DeltaConfig, hash: Bytes -> H, d: Round,
                             ghost versions: set<Version>, ghost was: Option<Bytes>)
    returns (da: seq<Frame>, ga: seq<Frame>)
    requires Reads(d) && d.version in versions && Safe(b, versions, was) && NoHarm(versions, was, c.bs, hash)
    ensures GetAnswer(ga, d.version, |Saved(b)|)
    ensures TriesDelta(b, c) ==> HonestDelta(da, b.target.value, c.bs, hash, d.version)
    ensures RefusalArrives(b, c, d, da, ga)
  {
    var get := HandleGet(Lookup(d), |Saved(b)|, d.chunk, d.input);
    ga := get[..Min(d.getCut, |get|)];
    CutIsAnswer(ga, get, d.version, |Saved(b)|);
    da := [];
    if c.min > 0 && c.bs > 0 && b.target.Some? && |b.target.value| >= c.min {
      StoredCopyIsNoHarm(b, d.version, versions, was, c.bs, hash);
      var hashes := HashBlocks(b.target.value, c.bs, hash);
      var delta := [Error(Unsupported)];
      if d.supported {
        delta := HandleDelta(Lookup(d), c.bs, hashes, hash, d.readable);
      }
      da := delta[..Min(d.deltaCut, |delta|)];
      CutIsDeltaAnswer(da, delta, d.version, c.bs, hashes, hash);
    }
  }

  /** With no local failure in front of frames on their way, a connection that is kept is drained. */
  lemma CleanDrains<H(!new)>(m: Manager, b: Files, c: DeltaConfig, hash: Bytes -> H, d: Round, da: seq<Frame>,
                             ga: seq<Frame>, r: Outcome)
    requires Clean(d) && m.OneResult(b, [], c, da, d.deltaFaults, ga, d.getFaults, r)
    requires GetAnswer(ga, d.version, |Saved(b)|)
    requires TriesDelta(b, c) ==> HonestDelta(da, b.target.value, c.bs, hash, d.version)
    ensures r.dropConn || m.inbox == []
  {
    assert [] + da == da;
    if UsesDelta(b, c, da, d.deltaFaults) {
      LeavesDeltaFramesIff(b.target.value, c.bs, da, d.deltaFaults, hash, d.version);
    } else {
      LeavesFramesIff(b, ga, d.version, d.getFaults, m.tolerance);
    }
  }

  /**
   * A refusal that reaches the server is what decides the attempt, and a file that is there is never reported
   * missing.
   */
  lemma RefusalDecides(b: Files, c: DeltaConfig, d: Round, da: seq<Frame>, ga: seq<Frame>, m: Manager)
    requires RefusalArrives(b, c, d, da, ga)
    ensures var reply := m.FirstReply(b, [], c, da, d.deltaFaults, ga, d.getFaults);
            && (Refuses(d) ==> reply == Some(Error(d.refusal.value)))
            && (reply == Some(Error(NotFound)) ==> d.refusal.Some?)
  {
    assert [] + da == da && [] + ga == ga;
  }

  /** A connection that carries no answer is given up. */
  lemma SilenceDrops(m: Manager, b: Files, c: DeltaConfig, d: Round, r: Outcome)
    requires m.OneResult(b, [], c, [], d.deltaFaults, [], d.getFaults, r)
    ensures !r.ok && !r.skipNow && r.dropConn
  {
    var none: seq<Frame> := [];
    assert none + none == none;
  }

  /** What a refusal that arrives, and an answer that does not, make of an attempt. */
  predicate Decides(d: Round, r: Outcome) {
    && (Refuses(d) ==> !r.ok && !r.dropConn && (r.skipNow <==> Missing(d)))
    && (r.skipNow ==> d.refusal == Some(NotFound))
    && (Silent(d) ==> !r.ok && r.dropConn)
  }

  lemma AnswerDecides(m: Manager, b: Files, c: DeltaConfig, d: Round, da: seq<Frame>, ga: seq<Frame>, r: Outcome)
    requires RefusalArrives(b, c, d, da, ga) && m.OneResult(b, [], c, da, d.deltaFaults, ga, d.getFaults, r)
    ensures Decides(d, r)
  {
    m.ReplyDecides(b, [], c, da, d.deltaFaults, ga, d.getFaults, r);
    RefusalDecides(b, c, d, da, ga, m);
    if Silent(d) {
      SilenceDrops(m, b, c, d, r);
    }
  }

  /** Some version described by size and time is what every disk holds, and the connection has nothing unread. */
  ghost predicate InOrder(m: Manager, versions: set<Version>, was: Option<Bytes>)
    reads m
  {
    m.inbox == [] && Safe(m.files, versions, was) && SameMeansSame(versions, m.tolerance)
  }

  /** One attempt: the client's answers, and downloadOne. A connection that is given up takes its frames with it. */
  method Attempt<H(!new, ==)>(m: Manager, c: DeltaConfig, hash: Bytes -> H, d: Round,
                              ghost versions: set<Version>, ghost was: Option<Bytes>)
    returns (r: Outcome)
    requires InOrder(m, versions, was) && NoHarm(versions, was, c.bs, hash)
    requires d.version in versions && Reads(d) && Clean(d)
    modifies m
    ensures InOrder(m, versions, was) && m.StaysSafe(versions, was)
    ensures if r.ok then m.IsNow(d.version) else m.index == old(m.index) && m.done == old(m.done)
    ensures Decides(d, r)
  {
    ghost var b := m.files;
    var da, ga := Answer(m.files, c, hash, d, versions, was);
    r := m.DownloadOne(true, c, hash, da, d.deltaFaults, ga, d.getFaults, d.version, versions, was);
    CleanDrains(m, b, c, hash, d, da, ga, r);
    AnswerDecides(m, b, c, d, da, ga, r);
    assert m.files in m.trace;
    if r.dropConn {
      m.inbox := [];
    }
  }

  function AttemptOf(r: Outcome): Pool.Attempt {
    if r.ok then Pool.Downloaded else if r.skipNow then Pool.NotFound else Pool.Broken(r.dropConn)
  }

  /** The rounds a task meets, whatever happens in them, are of known versions and fail nowhere unnoticed. */
  ghost predicate AllClean(rounds: nat -> Round, versions: set<Version>) {
    forall k :: rounds(k).version in versions && Reads(rounds(k)) && Clean(rounds(k))
  }

  /** The task is done exactly when its file is stored as the version of its last attempt. */
  ghost predicate Agree(pool: Pool.Manager, i: nat, m: Manager, rounds: nat -> Round, tries: nat)
    requires i < |pool.tasks|
    reads pool, m
  {
    if pool.tasks[i].status == Done then tries > 0 && m.IsNow(rounds(tries - 1).version) else !m.done
  }

  /**
   * processTask over downloadOne. However the client answers, whatever connections are lost and whatever
   * steps fail (but for those in Clean), however often it retries and wherever it is cancelled: when the
   * worker lets go of the task, the table says done if and only if the file is stored as the version the
   * client had in the last attempt; every disk state was safe; and the connection is drained for the next task.
   * A file the client has not got ends the task at once, skipped; any other refusal is tried again while
   * attempts are left; and a task is skipped for no other reason. A connection that carries no answer is not
   * used again.
   */
  method ProcessTask<H(!new, ==)>(pool: Pool.Manager, i: nat, m: Manager, c: DeltaConfig, hash: Bytes -> H,
                                  connected: bool, rounds: nat -> Round, dials: nat -> bool, pauses: nat -> bool,
                                  ghost w: nat, ghost versions: set<Version>, ghost was: Option<Bytes>)
    returns (tries: nat)
    requires pool.At(w, i, Marking) && !m.done && InOrder(m, versions, was) && NoHarm(versions, was, c.bs, hash)
    requires AllClean(rounds, versions)
    modifies pool, m
    ensures pool.Released(w) && i < |pool.tasks|
    ensures Ended(pool.tasks[i]) || (pool.cancelled && Runnable(pool.tasks[i]))
    ensures Agree(pool, i, m, rounds, tries) && InOrder(m, versions, was)
    ensures tries <= Max(1, pool.retryCount - old(pool.tasks)[i].attempts)
    ensures pool.tasks[i].status == Skipped ==>
              tries > 0 && (rounds(tries - 1).refusal == Some(NotFound)
                            || tries == Max(1, pool.retryCount - old(pool.tasks)[i].attempts))
    ensures forall k | 0 <= k < tries - 1 :: !Missing(rounds(k))
    ensures Missing(rounds(0)) && !old(pool.cancelled) && (connected || dials(0)) ==>
              tries == 1 && pool.tasks[i].status == Skipped
    ensures (Refuses(rounds(0)) && !Missing(rounds(0)) && !old(pool.cancelled) && (connected || dials(0))
             && !pauses(0) && old(pool.tasks)[i].attempts + 1 < pool.retryCount) ==> tries >= 2
    ensures Redials(rounds, connected, dials, tries)
  {
    ghost var earlier := pool.tasks[i].attempts;
    ghost var meets := !pool.cancelled && (connected || dials(0));
    ghost var again := !pauses(0) && earlier + 1 < pool.retryCount;
    pool.MarkTaskInProgress(i, w);
    tries := TryAll(pool, i, m, c, hash, connected, rounds, dials, pauses, meets, again, earlier, w, versions, was);
  }

  /** processTask's loop. */
  method TryAll<H(!new, ==)>(pool: Pool.Manager, i: nat, m: Manager, c: DeltaConfig, hash: Bytes -> H,
                             connected: bool, rounds: nat -> Round, dials: nat -> bool, pauses: nat -> bool,
                             ghost meets: bool, ghost again: bool, ghost earlier: nat,
                             ghost w: nat, ghost versions: set<Version>, ghost was: Option<Bytes>)
    returns (tries: nat)
    requires Handling(pool, i, m, rounds, 0, earlier, false, w)
    requires InOrder(m, versions, was) && NoHarm(versions, was, c.bs, hash) && AllClean(rounds, versions)
    requires meets ==> && (connected || dials(0)) && !pool.cancelled
                       && (again ==> !pauses(0) && earlier + 1 < pool.retryCount)
    modifies pool, m
    ensures InOrder(m, versions, was) && Handling(pool, i, m, rounds, tries, earlier, true, w)
    ensures OnCourse(rounds, tries, true, pool.tasks[i].status == Skipped, false, meets, again)
    ensures Redials(rounds, connected, dials, tries)
  {
    var hasConn := connected;
    tries := 0;
    var stop := false;
    while !stop
      invariant InOrder(m, versions, was) && Handling(pool, i, m, rounds, tries, earlier, stop, w)
      invariant !stop && tries == 0 ==> hasConn == connected && pool.cancelled == old(pool.cancelled)
      invariant OnCourse(rounds, tries, stop, pool.tasks[i].status == Skipped, hasConn, meets, again)
      invariant Connected(rounds, connected, dials, tries, stop, hasConn)
      decreases !stop, Max(1, pool.retryCount - earlier) - tries
    {
      stop, hasConn, tries := NextTry(pool, i, m, c, hash, hasConn, rounds, dials, pauses, tries, connected, meets,
                                      again, earlier, w, versions, was);
    }
  }

  /** One round of the loop. */
  method NextTry<H(!new, ==)>(pool: Pool.Manager, i: nat, m: Manager, c: DeltaConfig, hash: Bytes -> H,
                              hasConn: bool, rounds: nat -> Round, dials: nat -> bool, pauses: nat -> bool, tries: nat,
                              ghost connected: bool, ghost meets: bool, ghost again: bool, ghost earlier: nat,
                              ghost w: nat, ghost versions: set<Version>, ghost was: Option<Bytes>)
    returns (stop: bool, conn: bool, tried: nat)
    requires Handling(pool, i, m, rounds, tries, earlier, false, w)
    requires InOrder(m, versions, was) && NoHarm(versions, was, c.bs, hash) && AllClean(rounds, versions)
    requires tries == 0 && meets ==> && (hasConn || dials(0)) && !pool.cancelled
                                     && (again ==> !pauses(0) && earlier + 1 < pool.retryCount)
    requires OnCourse(rounds, tries, false, false, hasConn, meets, again)
    requires Connected(rounds, connected, dials, tries, false, hasConn)
    modifies pool, m
    ensures InOrder(m, versions, was) && Handling(pool, i, m, rounds, tried, earlier, stop, w)
    ensures !stop ==> tried == tries + 1
    ensures OnCourse(rounds, tried, stop, pool.tasks[i].status == Skipped, conn, meets, again)
    ensures Connected(rounds, connected, dials, tried, stop, conn)
  {
    ghost var met := hasConn || (dials(tries) && !pool.cancelled);
    ghost var more := !pauses(tries) && !pool.cancelled && earlier + tries + 1 < pool.retryCount;
    stop, conn, tried := TryRound(pool, i, m, c, hash, hasConn, rounds, dials(tries), pauses(tries), tries,
                                  earlier, w, versions, was);
    RedialsOn(rounds, connected, dials, tries, hasConn, tried, stop, conn);
    CourseGoesOn(rounds, tries, hasConn, met, more, stop, tried, pool.tasks[i].status == Skipped, conn, meets, again);
  }

  /** No attempt is made without a connection, or on one that carried no answer to the attempt before. */
  predicate Redials(rounds: nat -> Round, connected: bool, dials: nat -> bool, tries: nat) {
    && (tries > 0 && !connected ==> dials(0))
    && forall k | 0 < k < tries && Silent(rounds(k - 1)) :: dials(k)
  }

  /** That holds so far, and the connection at hand is one the next attempt may be made on. */
  predicate Connected(rounds: nat -> Round, connected: bool, dials: nat -> bool, tries: nat, stop: bool, conn: bool) {
    && Redials(rounds, connected, dials, tries)
    && (!stop ==> if tries == 0 then conn == connected else Silent(rounds(tries - 1)) ==> !conn)
  }

  lemma RedialsOn(rounds: nat -> Round, connected: bool, dials: nat -> bool, tries: nat, had: bool, tried: nat,
                  stop: bool, conn: bool)
    requires Connected(rounds, connected, dials, tries, false, had)
    requires tried == tries + 1 || (tried == tries && stop)
    requires tried > tries ==> (had || dials(tries)) && (Silent(rounds(tries)) && !stop ==> !conn)
    ensures Connected(rounds, connected, dials, tried, stop, conn)
  {
  }

  /** The worker is about to make another attempt. */
  ghost predicate Trying(pool: Pool.Manager, i: nat, earlier: nat, tries: nat, w: nat)
    reads pool
  {
    && pool.At(w, i, Running) && pool.tasks[i].status == InProgress && pool.tasks[i].attempts == earlier + tries
    && (tries > 0 ==> pool.tasks[i].attempts < pool.retryCount)
  }

  /** How one round turns out, if it meets the client; `more` says that another attempt is left and not cancelled. */
  predicate TurnsOut(d: Round, met: bool, more: bool, stop: bool, skipped: bool, conn: bool) {
    && (!stop ==> !Missing(d))
    && (met && Missing(d) ==> stop && skipped)
    && (met && more && Refuses(d) && !Missing(d) ==> !stop && conn)
    && (Silent(d) && !stop ==> !conn)
  }

  /**
   * No file was missing so far, but in the last round of a task that is ended. If the first round meets the
   * client, a missing file ends the task in it, and another refusal is followed by a second round if one is left.
   */
  predicate OnCourse(rounds: nat -> Round, tries: nat, stop: bool, skipped: bool, conn: bool, meets: bool,
                     again: bool) {
    && (forall k | 0 <= k < if stop then tries - 1 else tries :: !Missing(rounds(k)))
    && (meets && Missing(rounds(0)) ==> if stop then tries == 1 && skipped else tries == 0)
    && (meets && again && Refuses(rounds(0)) && !Missing(rounds(0)) ==> tries >= 2 || (!stop && (tries == 1 ==> conn)))
  }

  lemma CourseGoesOn(rounds: nat -> Round, tries: nat, had: bool, met: bool, more: bool, stop: bool, tried: nat,
                     skipped: bool, conn: bool, meets: bool, again: bool)
    requires OnCourse(rounds, tries, false, false, had, meets, again)
    requires TurnsOut(rounds(tries), met, more, stop, skipped, conn) && (had ==> met)
    requires tried == tries + 1 || (tried == tries && stop && !met)
    requires tries == 0 && meets ==> met && (again ==> more)
    ensures OnCourse(rounds, tried, stop, skipped, conn, meets, again)
  {
  }

  /** A task is skipped because the client has no such file, or because its attempts are used up. */
  ghost predicate SkippedFor(pool: Pool.Manager, rounds: nat -> Round, tries: nat, earlier: nat)
  {
    tries > 0 && (rounds(tries - 1).refusal == Some(NotFound) || tries == Max(1, pool.retryCount - earlier))
  }

  /** The worker goes on with its task, or has let go of it, and then table and disk agree. */
  ghost predicate Handling(pool: Pool.Manager, i: nat, m: Manager, rounds: nat -> Round, tries: nat, earlier: nat,
                           stop: bool, w: nat)
    reads pool, m
  {
    && i < |pool.tasks|
    && if stop then && pool.Released(w) && Agree(pool, i, m, rounds, tries)
                    && (Ended(pool.tasks[i]) || (pool.cancelled && Runnable(pool.tasks[i])))
                    && tries <= Max(1, pool.retryCount - earlier)
                    && (pool.tasks[i].status == Skipped ==> SkippedFor(pool, rounds, tries, earlier))
       else !m.done && Trying(pool, i, earlier, tries, w)
  }

  method TryRound<H(!new, ==)>(pool: Pool.Manager, i: nat, m: Manager, c: DeltaConfig, hash: Bytes -> H,
                               hasConn: bool, rounds: nat -> Round, dialed: bool, pauseCancelled: bool, tries: nat,
                               ghost earlier: nat,
                               ghost w: nat, ghost versions: set<Version>, ghost was: Option<Bytes>)
    returns (stop: bool, conn: bool, tried: nat)
    requires Trying(pool, i, earlier, tries, w) && !m.done
    requires InOrder(m, versions, was) && NoHarm(versions, was, c.bs, hash) && AllClean(rounds, versions)
    modifies pool, m
    ensures InOrder(m, versions, was) && Handling(pool, i, m, rounds, tried, earlier, stop, w)
    ensures var met := hasConn || (dialed && !old(pool.cancelled));
            && (tried == tries + 1 || (tried == tries && stop && !met))
            && TurnsOut(rounds(tries), met,
                        !pauseCancelled && !old(pool.cancelled) && earlier + tries + 1 < pool.retryCount,
                        stop, pool.tasks[i].status == Skipped, conn)
    ensures tried > tries ==> hasConn || dialed
  {
    var connection := pool.Connect(i, hasConn, dialed, w);
    if !connection {
      return true, false, tries;
    }
    stop, conn := TryConnected(pool, i, m, c, hash, rounds, pauseCancelled, tries, earlier, w, versions, was);
    tried := tries + 1;
  }

  /** One attempt on a connection that is there. */
  method TryConnected<H(!new, ==)>(pool: Pool.Manager, i: nat, m: Manager, c: DeltaConfig, hash: Bytes -> H,
                                   rounds: nat -> Round, pauseCancelled: bool, tries: nat, ghost earlier: nat,
                                   ghost w: nat, ghost versions: set<Version>, ghost was: Option<Bytes>)
    returns (stop: bool, conn: bool)
    requires Trying(pool, i, earlier, tries, w) && !m.done
    requires InOrder(m, versions, was) && NoHarm(versions, was, c.bs, hash) && AllClean(rounds, versions)
    modifies pool, m
    ensures InOrder(m, versions, was) && Handling(pool, i, m, rounds, tries + 1, earlier, stop, w)
    ensures TurnsOut(rounds(tries), true,
                     !pauseCancelled && !old(pool.cancelled) && earlier + tries + 1 < pool.retryCount,
                     stop, pool.tasks[i].status == Skipped, conn)
  {
    var r := Attempt(m, c, hash, rounds(tries), versions, was);
    stop := pool.TryOnce(i, AttemptOf(r), pauseCancelled, earlier, tries, w);
    conn := !r.dropConn;
  }
}
