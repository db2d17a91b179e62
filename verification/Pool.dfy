/**
 * The task store's statements and one worker's handling of a task, as methods. processTask is proved to
 * take only steps of the queue's state machine.
 */
module Pool {
  import opened Basics
  import opened Tables
  import opened Queue

  /** One call of downloadOne, as its caller sees it. */
  datatype Attempt = Downloaded | NotFound | Broken(dropConn: bool)

  lemma {:induction false} RunAppend(s: State, es: seq<Event>, e: Event, retryCount: nat, pageSize: nat)
    requires Possible(s, es, retryCount, pageSize) && Enabled(Run(s, es, retryCount, pageSize), e)
    ensures Possible(s, es + [e], retryCount, pageSize)
    ensures Run(s, es + [e], retryCount, pageSize) == Step(Run(s, es, retryCount, pageSize), e, retryCount, pageSize)
    decreases |es|
  {
    if es == [] {
      assert [] + [e] == [e] && [e][1..] == [];
    } else {
      assert (es + [e])[1..] == es[1..] + [e];
      RunAppend(Step(s, es[0], retryCount, pageSize), es[1..], e, retryCount, pageSize);
    }
  }

  class Manager {
    const retryCount: nat
    const pageSize: nat
    var tasks: seq<Task>
    var downloaded: nat
    var skipped: nat
    var cancelled: bool
    var connLost: bool
    ghost var start: State
    ghost var events: seq<Event>

    ghost predicate Started()
      reads this
    {
      Possible(start, events, retryCount, pageSize)
    }

    /** Where the state machine is after the steps taken so far. */
    ghost function Now(): State
      requires Started()
      reads this
    {
      Run(start, events, retryCount, pageSize)
    }

    ghost predicate Valid()
      reads this
    {
      && Started() && Now().tasks == tasks && Now().downloaded == downloaded && Now().skipped == skipped
      && Now().cancelled == cancelled && Now().connLost == connLost
    }

    /** Records one step of the state machine. */
    ghost method Note(e: Event)
      requires Started() && Enabled(Now(), e)
      modifies `events
      ensures Started() && Now() == Step(old(Now()), e, retryCount, pageSize) && events == old(events) + [e]
    {
      RunAppend(start, events, e, retryCount, pageSize);
      events := events + [e];
    }

    /** ListRunnableTasksPage. */
    method ListRunnableTasksPage(after: nat, limit: nat) returns (page: seq<nat>)
      ensures page == PageOf(tasks, after, limit)
    {
      page := [];
      for i := 0 to |tasks|
        invariant page == PageUpTo(tasks, after, limit, i)
      {
        if |page| < limit && (tasks[i].status == Pending || tasks[i].status == InProgress) && tasks[i].id > after {
          page := page + [i];
        }
      }
    }

    method ResetStaleInProgress()
      modifies `tasks
      ensures tasks == Reset(old(tasks))
    {
      var rows := tasks;
      for i := 0 to |rows|
        invariant |tasks| == |rows|
        invariant forall j | 0 <= j < |rows| :: tasks[j] == if j < i then ResetRow(rows[j]) else rows[j]
      {
        if rows[i].status == InProgress {
          tasks := tasks[i := rows[i].(status := Pending)];
        }
      }
    }

    method DeleteTasksByStatus(st: Status)
      modifies `tasks
      ensures tasks == Without(old(tasks), st)
    {
      var rows := tasks;
      tasks := [];
      for i := 0 to |rows|
        invariant tasks == Without(rows[..i], st)
      {
        assert rows[..i + 1][..i] == rows[..i];
        if rows[i].status != st {
          tasks := tasks + [rows[i]];
        }
      }
      assert rows[..|rows|] == rows;
    }

    /** The end of RunCycle. */
    method ClearQueue()
      modifies `tasks
      ensures tasks == EndOfCycle(old(tasks))
    {
      DeleteTasksByStatus(Done);
      DeleteTasksByStatus(Skipped);
      DeleteTasksByStatus(Failed);
    }

    /** Worker w holds task i in a phase. */
    ghost predicate At(w: nat, i: nat, phase: Phase)
      reads this
    {
      Valid() && Holds(Now(), w, phase) && Now().workers[w].task == i && i < |tasks|
    }

    /** The worker has let go of its task. */
    ghost predicate Released(w: nat)
      reads this
    {
      Valid() && w < |Now().workers| && Now().workers[w].Idle?
    }

    /** IncTaskAttempt. */
    method IncTaskAttempt(i: nat, ghost w: nat)
      requires At(w, i, Running)
      modifies `tasks, `events
      ensures At(w, i, Failing) && old(events) <= events
      ensures tasks == old(tasks)[i := old(tasks)[i].(status := Status.Failed, attempts := old(tasks)[i].attempts + 1)]
    {
      tasks := tasks[i := tasks[i].(status := Status.Failed, attempts := tasks[i].attempts + 1)];
      Note(Fail(w));
    }

    /** skip, when the attempts are used up. */
    method Skip(i: nat, ghost w: nat)
      requires At(w, i, Failing) && tasks[i].attempts >= retryCount
      modifies `tasks, `skipped, `events
      ensures Released(w) && old(events) <= events && tasks == old(tasks)[i := old(tasks)[i].(status := Skipped)]
      ensures skipped == old(skipped) + 1
    {
      tasks := tasks[i := tasks[i].(status := Skipped)];
      skipped := skipped + 1;
      Note(Decide(w));
    }

    /** Back to pending for the pause before the next attempt. */
    method Requeue(i: nat, ghost w: nat)
      requires At(w, i, Failing) && tasks[i].attempts < retryCount
      modifies `tasks, `events
      ensures At(w, i, Waiting) && old(events) <= events && tasks == old(tasks)[i := old(tasks)[i].(status := Pending)]
    {
      tasks := tasks[i := tasks[i].(status := Pending)];
      Note(Decide(w));
    }

    /** The run is cancelled while the worker could still retry: the task stays as it is. */
    method Abandon(i: nat, phase: Phase, ghost w: nat)
      requires At(w, i, phase) && (phase == Waiting || phase == Running)
      modifies `cancelled, `events
      ensures Released(w) && cancelled && old(events) <= events
    {
      if !cancelled {
        cancelled := true;
        Note(Cancel);
      }
      Note(GiveUp(w));
    }

    method Resume(i: nat, ghost w: nat)
      requires At(w, i, Waiting)
      modifies `tasks, `events
      ensures At(w, i, Running) && old(events) <= events
              && tasks == old(tasks)[i := old(tasks)[i].(status := InProgress)]
    {
      tasks := tasks[i := tasks[i].(status := InProgress)];
      Note(Again(w));
    }

    /**
     * failAttempt. It says whether to stop: the task is out of attempts and skipped, or the run was
     * cancelled during the pause and the task is pending again.
     */
    method FailAttempt(i: nat, pauseCancelled: bool, ghost w: nat) returns (stop: bool)
      requires At(w, i, Running)
      modifies `tasks, `skipped, `cancelled, `events
      ensures |tasks| == |old(tasks)| && old(events) <= events && tasks[i].attempts == old(tasks)[i].attempts + 1
      ensures stop <==> tasks[i].attempts >= retryCount || pauseCancelled
      ensures stop ==> Released(w) && if tasks[i].attempts >= retryCount then tasks[i].status == Skipped
                                      else tasks[i].status == Pending && cancelled
      ensures !stop ==> At(w, i, Running) && tasks[i].status == InProgress
      ensures !pauseCancelled ==> cancelled == old(cancelled)
    {
      IncTaskAttempt(i, w);
      if tasks[i].attempts >= retryCount {
        Skip(i, w);
        return true;
      }
      Requeue(i, w);
      if pauseCancelled {
        Abandon(i, Waiting, w);
        return true;
      }
      Resume(i, w);
      return false;
    }

    method MarkTaskInProgress(i: nat, ghost w: nat)
      requires At(w, i, Marking)
      modifies `tasks, `events
      ensures At(w, i, Running) && old(events) <= events
              && tasks == old(tasks)[i := old(tasks)[i].(status := InProgress)]
    {
      tasks := tasks[i := tasks[i].(status := InProgress)];
      Note(Mark(w));
    }

    /** The end of a successful downloadOne, and the count of it. */
    method Finish(i: nat, ghost w: nat)
      requires At(w, i, Running)
      modifies `tasks, `downloaded, `events
      ensures Released(w) && old(events) <= events && tasks == old(tasks)[i := old(tasks)[i].(status := Done)]
      ensures downloaded == old(downloaded) + 1
    {
      tasks := tasks[i := tasks[i].(status := Done)];
      downloaded := downloaded + 1;
      Note(Succeed(w));
    }

    /** skip at once, for a file the client no longer has. */
    method SkipMissing(i: nat, ghost w: nat)
      requires At(w, i, Running)
      modifies `tasks, `skipped, `events
      ensures Released(w) && old(events) <= events && tasks == old(tasks)[i := old(tasks)[i].(status := Skipped)]
      ensures skipped == old(skipped) + 1
    {
      tasks := tasks[i := tasks[i].(status := Skipped)];
      skipped := skipped + 1;
      Note(SkipNow(w));
    }

    /** dial has used up its retries: the whole queue is cancelled. */
    method LoseConnection(i: nat, ghost w: nat)
      requires At(w, i, Running)
      modifies `cancelled, `connLost, `events
      ensures Released(w) && cancelled && old(events) <= events
    {
      cancelled, connLost := true, true;
      Note(DialFails(w));
    }

    /**
     * A connection for the next attempt: the one at hand, or a new one unless the run is cancelled or dialing
     * fails for good.
     */
    method Connect(i: nat, hasConn: bool, dialed: bool, ghost w: nat) returns (ok: bool)
      requires At(w, i, Running)
      modifies `cancelled, `connLost, `events
      ensures old(events) <= events && ok == (hasConn || (!old(cancelled) && dialed))
      ensures if ok then At(w, i, Running) && cancelled == old(cancelled) else Released(w) && cancelled
    {
      if hasConn {
        return true;
      }
      if cancelled {
        Abandon(i, Running, w);
        return false;
      }
      if !dialed {
        LoseConnection(i, w);
        return false;
      }
      return true;
    }

    /** What becomes of a task after an attempt that was its last, out of the attempts it had left. */
    predicate Verdict(t: Task, earlier: nat, a: Attempt, tries: nat) {
      && tries > 0
      && match a
         case Downloaded => t.status == Done
         case NotFound => t.status == Skipped && t.attempts == earlier + tries - 1
         case Broken(_) => t.status == Skipped && tries == Max(1, retryCount - earlier)
    }

    predicate AllBroken(attempts: nat -> Attempt, n: nat) {
      n == 0 || (attempts(n - 1).Broken? && AllBroken(attempts, n - 1))
    }

    /** The task after `tries` attempts: all but the last broken, the last one deciding; or still in the queue. */
    predicate Handled(t: Task, earlier: nat, attempts: nat -> Attempt, tries: nat) {
      && (tries > 0 ==> AllBroken(attempts, tries - 1))
      && (if Ended(t) then tries > 0 && Verdict(t, earlier, attempts(tries - 1), tries) else Runnable(t))
      && tries <= Max(1, retryCount - earlier)
    }

    /** No attempt is made on a connection that an earlier one has given up, or on none at all. */
    predicate Redials(attempts: nat -> Attempt, connected: bool, dials: nat -> bool, tries: nat) {
      && (tries > 0 && !connected ==> dials(0))
      && forall k | 0 < k < tries && attempts(k - 1) == Broken(true) :: dials(k)
    }

    lemma RedialsOn(attempts: nat -> Attempt, connected: bool, dials: nat -> bool, tries: nat, had: bool, tried: nat)
      requires Redials(attempts, connected, dials, tries) && tries <= tried <= tries + 1
      requires if tries == 0 then had == connected else attempts(tries - 1) == Broken(true) ==> !had
      requires tried > tries ==> had || dials(tries)
      ensures Redials(attempts, connected, dials, tried)
    {
    }

    /** One attempt and what follows from it. */
    method TryOnce(i: nat, a: Attempt, pauseCancelled: bool, ghost earlier: nat, ghost tries: nat, ghost w: nat)
      returns (stop: bool)
      requires At(w, i, Running) && tasks[i].status == InProgress
      requires tasks[i].attempts == earlier + tries && (tries > 0 ==> tasks[i].attempts < retryCount)
      modifies `tasks, `downloaded, `skipped, `cancelled, `events
      ensures |tasks| == |old(tasks)| && old(events) <= events
      ensures !stop ==> && At(w, i, Running) && tasks[i].status == InProgress && a.Broken?
                        && tasks[i].attempts == earlier + tries + 1 < retryCount && !cancelled && !old(cancelled)
      ensures stop ==> && Released(w)
                       && if Ended(tasks[i]) then Verdict(tasks[i], earlier, a, tries + 1)
                          else a.Broken? && cancelled && Runnable(tasks[i])
      ensures !pauseCancelled && !old(cancelled) ==> !cancelled && (stop ==> Ended(tasks[i]))
    {
      match a
      case Downloaded =>
        Finish(i, w);
        return true;
      case NotFound =>
        SkipMissing(i, w);
        return true;
      case Broken(_) =>
        stop := FailAttempt(i, pauseCancelled, w);
        if !stop && cancelled {
          Abandon(i, Running, w);
          stop := true;
        }
    }

    /** Worker w is about to make attempt number `tries` on task i, whose earlier ones in this run were all broken. */
    ghost predicate AtTry(w: nat, i: nat, earlier: nat, tries: nat, attempts: nat -> Attempt)
      reads this
    {
      && At(w, i, Running) && tasks[i].status == InProgress && AllBroken(attempts, tries)
      && tasks[i].attempts == earlier + tries && (tries > 0 ==> tasks[i].attempts < retryCount)
    }

    /** One round of processTask's loop: a connection, an attempt, and what follows from it. */
    method TryRound(i: nat, hasConn: bool, dialed: bool, attempts: nat -> Attempt, pauseCancelled: bool,
                    ghost earlier: nat, tries: nat, ghost w: nat)
      returns (stop: bool, conn: bool, tried: nat)
      requires AtTry(w, i, earlier, tries, attempts)
      modifies `tasks, `downloaded, `skipped, `cancelled, `connLost, `events
      ensures |tasks| == |old(tasks)| && old(events) <= events
      ensures if stop then Released(w) && Handled(tasks[i], earlier, attempts, tried) && (Ended(tasks[i]) || cancelled)
              else tried == tries + 1 && AtTry(w, i, earlier, tried, attempts) && !cancelled && !old(cancelled)
      ensures dialed && !pauseCancelled && !old(cancelled) ==> !cancelled && (stop ==> Ended(tasks[i]))
      ensures tries <= tried <= tries + 1
      ensures tried > tries ==> (hasConn || dialed) && (attempts(tries) == Broken(true) ==> !conn)
    {
      var connection := Connect(i, hasConn, dialed, w);
      if !connection {
        return true, false, tries;
      }
      var a := attempts(tries);
      stop := TryOnce(i, a, pauseCancelled, earlier, tries, w);
      conn, tried := !(a.Broken? && a.dropConn), tries + 1;
    }

    /**
     * processTask, with the outcomes of its dials, attempts and pauses given. All it does to the table
     * and the counters are steps of the state machine. All attempts but the last are broken ones; the
     * last decides: done, skipped because missing, or skipped because the attempts are used up. Only a
     * cancelled run leaves the task in the queue. A connection that is given up is not used again.
     */
    method ProcessTask(i: nat, connected: bool, dials: nat -> bool, attempts: nat -> Attempt, pauses: nat -> bool,
                       ghost w: nat)
      returns (tries: nat)
      requires At(w, i, Marking)
      modifies `tasks, `downloaded, `skipped, `cancelled, `connLost, `events
      ensures Released(w) && |tasks| == |old(tasks)| && old(events) <= events
      ensures Handled(tasks[i], old(tasks)[i].attempts, attempts, tries)
      ensures !Ended(tasks[i]) ==> cancelled
      ensures !old(cancelled) && (forall k :: dials(k) && !pauses(k)) ==> Ended(tasks[i]) && !cancelled
      ensures Redials(attempts, connected, dials, tries)
    {
      var hasConn := connected;
      ghost var earlier := tasks[i].attempts;
      MarkTaskInProgress(i, w);
      tries := 0;
      var stop := false;
      while !stop
        invariant |tasks| == |old(tasks)| && old(events) <= events
        invariant if stop then Released(w) && Handled(tasks[i], earlier, attempts, tries)
                  && (Ended(tasks[i]) || cancelled)
                  else AtTry(w, i, earlier, tries, attempts) && (cancelled ==> old(cancelled))
        invariant !old(cancelled) && (forall k :: dials(k) && !pauses(k)) ==> !cancelled && (stop ==> Ended(tasks[i]))
        invariant Redials(attempts, connected, dials, tries)
        invariant !stop ==>
                    if tries == 0 then hasConn == connected else attempts(tries - 1) == Broken(true) ==> !hasConn
        decreases !stop, retryCount - tasks[i].attempts
      {
        ghost var had, before := hasConn, tries;
        stop, hasConn, tries := TryRound(i, hasConn, dials(tries), attempts, pauses(tries), earlier, tries, w);
        RedialsOn(attempts, connected, dials, before, had, tries);
      }
    }
  }
}
