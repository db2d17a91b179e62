/**
 * The download queue: a producer that pages through the runnable tasks, workers that take tasks from an
 * unbuffered channel and retry them, cancellation and connection loss. Every statement on the task
 * table and every hand-over is one step, so all interleavings are runs. A task is named by its index:
 * no row is added or removed while the queue runs.
 */
module Queue {
  import opened Basics
  import opened Tables

  datatype Phase = Marking | Running | Failing | Waiting

  datatype Worker = Idle | Busy(task: nat, phase: Phase) | Gone

  /** `given` lists the tasks handed to workers, in order. */
  datatype State = State(tasks: seq<Task>, after: nat, page: seq<nat>, producing: bool, workers: seq<Worker>,
                         given: seq<nat>,
                         downloaded: nat, skipped: nat, cancelled: bool, connLost: bool, queryFailed: bool)

  // ---- Keyset paging ----

  /** Among the first n tasks, the first `limit` runnable ones with an id above `after`. */
  function PageUpTo(tasks: seq<Task>, after: nat, limit: nat, n: nat): seq<nat>
    requires n <= |tasks|
  {
    if n == 0 then []
    else
      var p := PageUpTo(tasks, after, limit, n - 1);
      if |p| < limit && Runnable(tasks[n - 1]) && tasks[n - 1].id > after then p + [n - 1] else p
  }

  function PageOf(tasks: seq<Task>, after: nat, limit: nat): seq<nat> {
    PageUpTo(tasks, after, limit, |tasks|)
  }

  predicate Eligible(tasks: seq<Task>, after: nat, i: nat) {
    i < |tasks| && Runnable(tasks[i]) && tasks[i].id > after
  }

  predicate Increasing(xs: seq<nat>) {
    forall j, k | 0 <= j < k < |xs| :: xs[j] < xs[k]
  }

  /** A page holds eligible tasks in order, and skips none below its end unless it is full. */
  lemma {:induction false} PageIsNext(tasks: seq<Task>, after: nat, limit: nat, n: nat, i: nat)
    requires n <= |tasks|
    ensures var p := PageUpTo(tasks, after, limit, n);
            && Increasing(p) && |p| <= limit && (forall k | 0 <= k < |p| :: p[k] < n && Eligible(tasks, after, p[k]))
            && (i < n && Eligible(tasks, after, i) ==> i in p || (|p| == limit && forall k | 0 <= k < |p| :: p[k] < i))
  {
    if n > 0 {
      PageIsNext(tasks, after, limit, n - 1, i);
    }
  }

  // ---- Steps ----

  datatype Event =
    | FetchPage | PageFails | StopProducing | Cancel
    | Take(w: nat) | Leave(w: nat)
    | Mark(w: nat) | Succeed(w: nat) | SkipNow(w: nat) | Fail(w: nat) | Decide(w: nat) | Again(w: nat)
    | DialFails(w: nat) | GiveUp(w: nat)

  predicate Holds(s: State, w: nat, phase: Phase) {
    w < |s.workers| && s.workers[w].Busy? && s.workers[w].phase == phase && s.workers[w].task < |s.tasks|
  }

  predicate Enabled(s: State, e: Event) {
    match e
    case FetchPage => s.producing && s.page == []
    case PageFails => s.producing && s.page == []
    case StopProducing => s.producing && s.page != [] && s.cancelled
    case Cancel => !s.cancelled
    case Take(w) => s.producing && s.page != [] && s.page[0] < |s.tasks| && w < |s.workers| && s.workers[w].Idle?
    case Leave(w) => w < |s.workers| && s.workers[w].Idle? && (s.cancelled || !s.producing)
    case Mark(w) => Holds(s, w, Marking)
    case Succeed(w) => Holds(s, w, Running)
    case SkipNow(w) => Holds(s, w, Running)
    case Fail(w) => Holds(s, w, Running)
    case Decide(w) => Holds(s, w, Failing)
    case Again(w) => Holds(s, w, Waiting)
    case DialFails(w) => Holds(s, w, Running)
    case GiveUp(w) => s.cancelled && (Holds(s, w, Running) || Holds(s, w, Waiting))
  }

  /** Worker w's task becomes t, the worker becomes u. */
  function Move(s: State, w: nat, t: Task, u: Worker): State
    requires w < |s.workers| && s.workers[w].Busy? && s.workers[w].task < |s.tasks|
  {
    s.(tasks := s.tasks[s.workers[w].task := t], workers := s.workers[w := u])
  }

  function Step(s: State, e: Event, retryCount: nat, pageSize: nat): State
    requires Enabled(s, e)
  {
    match e
    case FetchPage =>
      var p := PageOf(s.tasks, s.after, pageSize);
      s.(page := p, producing := p != [])
    case PageFails => s.(producing := false, queryFailed := true)
    case StopProducing =>
      s.(after := if s.page[0] < |s.tasks| then s.tasks[s.page[0]].id else s.after, producing := false)
    case Cancel => s.(cancelled := true)
    case Take(w) =>
      var i := s.page[0];
      s.(after := s.tasks[i].id, page := s.page[1..], workers := s.workers[w := Busy(i, Marking)],
         given := s.given + [i])
    case Leave(w) => s.(workers := s.workers[w := Gone])
    case Mark(w) =>
      var i := s.workers[w].task;
      Move(s, w, s.tasks[i].(status := InProgress), Busy(i, Running))
    case Succeed(w) => Move(s, w, s.tasks[s.workers[w].task].(status := Done), Idle).(downloaded := s.downloaded + 1)
    case SkipNow(w) => Move(s, w, s.tasks[s.workers[w].task].(status := Skipped), Idle).(skipped := s.skipped + 1)
    case Fail(w) =>
      var i := s.workers[w].task;
      Move(s, w, s.tasks[i].(status := Failed, attempts := s.tasks[i].attempts + 1), Busy(i, Failing))
    case Decide(w) =>
      var i := s.workers[w].task;
      if s.tasks[i].attempts >= retryCount
        then Move(s, w, s.tasks[i].(status := Skipped), Idle).(skipped := s.skipped + 1)
      else Move(s, w, s.tasks[i].(status := Pending), Busy(i, Waiting))
    case Again(w) =>
      var i := s.workers[w].task;
      Move(s, w, s.tasks[i].(status := InProgress), Busy(i, Running))
    case DialFails(w) => s.(workers := s.workers[w := Idle], cancelled := true, connLost := true)
    case GiveUp(w) => s.(workers := s.workers[w := Idle])
  }

  function Initial(tasks: seq<Task>, workers: nat): State {
    State(tasks, 0, [], true, seq(workers, i => Idle), [], 0, 0, false, false, false)
  }

  predicate Possible(s: State, es: seq<Event>, retryCount: nat, pageSize: nat)
    decreases |es|
  {
    es == [] || (Enabled(s, es[0]) && Possible(Step(s, es[0], retryCount, pageSize), es[1..], retryCount, pageSize))
  }

  function Run(s: State, es: seq<Event>, retryCount: nat, pageSize: nat): State
    requires Possible(s, es, retryCount, pageSize)
    decreases |es|
  {
    if es == [] then s else Run(Step(s, es[0], retryCount, pageSize), es[1..], retryCount, pageSize)
  }

  // ---- Invariants, over the task table t0 the run began with ----

  predicate SameRow(t: Task, u: Task) {
    t.id == u.id && t.rel == u.rel && t.size == u.size && t.cycle == u.cycle
  }

  /** Rows keep their identity; tasks not handed out are as they were. */
  predicate Rows(s: State, t0: seq<Task>) {
    && |s.tasks| == |t0| && (forall i | 0 <= i < |t0| :: SameRow(s.tasks[i], t0[i]))
    && (forall i | 0 <= i < |t0| && i !in s.given :: s.tasks[i] == t0[i])
  }

  /** Tasks are handed out in table order, so none twice, and only tasks that were runnable. */
  predicate GivenInOrder(s: State, t0: seq<Task>) {
    Increasing(s.given) && forall k | 0 <= k < |s.given| ::
      s.given[k] < |t0| && Runnable(t0[s.given[k]]) && t0[s.given[k]].id <= s.after
  }

  /** The producer has skipped nothing: up to `after` all is given, and up to the page's end all is in the page. */
  predicate PagedThrough(s: State, t0: seq<Task>) {
    && (s.producing ==>
          && Increasing(s.page) && (forall k | 0 <= k < |s.page| :: Eligible(t0, s.after, s.page[k]))
          && (forall i | 0 <= i < |t0| && Runnable(t0[i]) && t0[i].id <= s.after :: i in s.given)
          && (forall i, k | 0 <= k < |s.page| && Eligible(t0, s.after, i) && i !in s.page :: s.page[k] < i))
    && (!s.producing && !s.cancelled && !s.queryFailed ==> forall i | 0 <= i < |t0| && Runnable(t0[i]) :: i in s.given)
  }

  predicate StatusFits(t: Task, phase: Phase) {
    match phase
    case Marking => Runnable(t)
    case Running => t.status == InProgress
    case Failing => t.status == Failed
    case Waiting => t.status == Pending
  }

  predicate HandOk(s: State, w: nat)
    requires w < |s.workers|
  {
    s.workers[w].Busy? ==>
      && s.workers[w].task < |s.tasks| && s.workers[w].task in s.given
      && StatusFits(s.tasks[s.workers[w].task], s.workers[w].phase)
  }

  /** Workers hold different tasks, each in the status of its worker's phase. */
  predicate Hands(s: State) {
    && (forall w | 0 <= w < |s.workers| :: HandOk(s, w))
    && (forall v, w | 0 <= v < w < |s.workers| && s.workers[v].Busy? && s.workers[w].Busy? ::
          s.workers[v].task != s.workers[w].task)
  }

  predicate Ended(t: Task) {
    t.status == Done || t.status == Skipped
  }

  predicate Held(s: State, i: nat) {
    exists w :: 0 <= w < |s.workers| && s.workers[w].Busy? && s.workers[w].task == i
  }

  /** Every task handed out is finished, in a worker's hands, or back in the queue after a cancellation. */
  predicate Accounted(s: State) {
    forall k | 0 <= k < |s.given| && s.given[k] < |s.tasks| ::
      Ended(s.tasks[s.given[k]]) || Held(s, s.given[k]) || (s.cancelled && Runnable(s.tasks[s.given[k]]))
  }

  predicate AttemptsFit(t: Task, t0: Task, retryCount: nat) {
    && t0.attempts <= t.attempts <= Max(t0.attempts + 1, retryCount)
    && (Runnable(t) ==> t.attempts == t0.attempts || t.attempts < retryCount)
  }

  predicate Attempts(s: State, t0: seq<Task>, retryCount: nat) {
    |s.tasks| == |t0| && forall i | 0 <= i < |t0| :: AttemptsFit(s.tasks[i], t0[i], retryCount)
  }

  function CountOf(tasks: seq<Task>, st: Status): nat {
    if tasks == [] then 0 else CountOf(tasks[..|tasks| - 1], st) + if tasks[|tasks| - 1].status == st then 1 else 0
  }

  /** The result counts the tasks finished in this run. */
  predicate Counted(s: State, t0: seq<Task>) {
    CountOf(s.tasks, Done) == CountOf(t0, Done) + s.downloaded
      && CountOf(s.tasks, Skipped) == CountOf(t0, Skipped) + s.skipped
  }

  /** Workers leave only once the channel is closed or the run cancelled; a lost connection is a cancellation. */
  predicate Leaving(s: State) {
    && (forall w | 0 <= w < |s.workers| && s.workers[w].Gone? :: s.cancelled || !s.producing)
    && (s.connLost ==> s.cancelled)
  }

  predicate Inv(s: State, t0: seq<Task>, retryCount: nat) {
    && Rows(s, t0) && GivenInOrder(s, t0) && PagedThrough(s, t0) && Hands(s) && Accounted(s)
    && Attempts(s, t0, retryCount) && Counted(s, t0) && Leaving(s)
  }

  // ---- One step keeps them ----

  lemma {:induction false} CountUpdate(tasks: seq<Task>, i: nat, t: Task, st: Status)
    requires i < |tasks|
    ensures CountOf(tasks[i := t], st) + (if tasks[i].status == st then 1 else 0)
            == CountOf(tasks, st) + (if t.status == st then 1 else 0)
  {
    var n := |tasks| - 1;
    if i < n {
      CountUpdate(tasks[..n], i, t, st);
      assert tasks[i := t][..n] == tasks[..n][i := t];
    } else {
      assert tasks[i := t][..n] == tasks[..n];
    }
  }

  predicate Acts(e: Event) {
    !e.FetchPage? && !e.PageFails? && !e.StopProducing? && !e.Cancel? && !e.Take? && !e.Leave?
  }

  function Actor(e: Event): nat
    requires Acts(e)
  {
    match e
    case Mark(w) => w
    case Succeed(w) => w
    case SkipNow(w) => w
    case Fail(w) => w
    case Decide(w) => w
    case Again(w) => w
    case DialFails(w) => w
    case GiveUp(w) => w
  }

  /** A worker's own step changes at most its task's row and itself. */
  lemma ActingIsLocal(s: State, e: Event, retryCount: nat, pageSize: nat)
    requires Enabled(s, e) && Acts(e)
    ensures var u, w := Step(s, e, retryCount, pageSize), Actor(e);
            && w < |s.workers| && s.workers[w].Busy? && s.workers[w].task < |s.tasks|
            && var i := s.workers[w].task;
               && |u.tasks| == |s.tasks| && u.tasks == s.tasks[i := u.tasks[i]] && SameRow(u.tasks[i], s.tasks[i])
               && |u.workers| == |s.workers| && u.workers == s.workers[w := u.workers[w]]
               && (u.workers[w].Idle?
                   || (u.workers[w].Busy? && u.workers[w].task == i && StatusFits(u.tasks[i], u.workers[w].phase)))
               && u.given == s.given && u.after == s.after && u.page == s.page && u.producing == s.producing
               && (s.cancelled ==> u.cancelled)
               && (u.workers[w].Idle? ==> Ended(u.tasks[i]) || (u.cancelled && u.tasks[i] == s.tasks[i]))
  {
  }

  lemma StepKeepsRows(s: State, e: Event, t0: seq<Task>, retryCount: nat, pageSize: nat)
    requires Enabled(s, e) && Rows(s, t0) && Hands(s) && PagedThrough(s, t0)
    ensures Rows(Step(s, e, retryCount, pageSize), t0)
  {
    if Acts(e) {
      ActingIsLocal(s, e, retryCount, pageSize);
      assert HandOk(s, Actor(e));
    }
  }

  lemma ActingKeepsHands(s: State, e: Event, retryCount: nat, pageSize: nat)
    requires Enabled(s, e) && Acts(e) && Hands(s)
    ensures Hands(Step(s, e, retryCount, pageSize))
  {
    var u := Step(s, e, retryCount, pageSize);
    ActingIsLocal(s, e, retryCount, pageSize);
    forall v | 0 <= v < |u.workers|
      ensures HandOk(u, v)
    {
      assert HandOk(s, v) && HandOk(s, Actor(e));
    }
  }

  lemma TakingKeepsHands(s: State, w: nat, t0: seq<Task>, retryCount: nat, pageSize: nat)
    requires Enabled(s, Take(w)) && Rows(s, t0) && Hands(s) && PagedThrough(s, t0) && GivenInOrder(s, t0)
    ensures Hands(Step(s, Take(w), retryCount, pageSize))
  {
    var u := Step(s, Take(w), retryCount, pageSize);
    NotGivenYet(s, t0);
    forall v | 0 <= v < |u.workers|
      ensures HandOk(u, v) && (s.workers[v].Busy? ==> s.workers[v].task != s.page[0])
    {
      assert HandOk(s, v);
    }
  }

  lemma StepKeepsHands(s: State, e: Event, t0: seq<Task>, retryCount: nat, pageSize: nat)
    requires Enabled(s, e) && Rows(s, t0) && Hands(s) && PagedThrough(s, t0) && GivenInOrder(s, t0)
    ensures Hands(Step(s, e, retryCount, pageSize))
  {
    if Acts(e) {
      ActingKeepsHands(s, e, retryCount, pageSize);
    } else if e.Take? {
      TakingKeepsHands(s, e.w, t0, retryCount, pageSize);
    } else {
      var u := Step(s, e, retryCount, pageSize);
      forall v | 0 <= v < |u.workers|
        ensures HandOk(u, v)
      {
        assert HandOk(s, v);
      }
    }
  }

  lemma NotGivenYet(s: State, t0: seq<Task>)
    requires PagedThrough(s, t0) && GivenInOrder(s, t0) && s.producing && s.page != []
    ensures s.page[0] !in s.given && Runnable(t0[s.page[0]])
  {
  }

  lemma StepKeepsAccounted(s: State, e: Event, t0: seq<Task>, retryCount: nat, pageSize: nat)
    requires Enabled(s, e) && Rows(s, t0) && Hands(s) && Accounted(s)
    ensures Accounted(Step(s, e, retryCount, pageSize))
  {
    var u := Step(s, e, retryCount, pageSize);
    if Acts(e) {
      ActingIsLocal(s, e, retryCount, pageSize);
      assert HandOk(s, Actor(e));
    }
    forall k | 0 <= k < |u.given| && u.given[k] < |u.tasks|
      ensures Ended(u.tasks[u.given[k]]) || Held(u, u.given[k]) || (u.cancelled && Runnable(u.tasks[u.given[k]]))
    {
      var i := u.given[k];
      if e.Take? && k == |s.given| {
        assert u.workers[e.w].task == i;
      } else {
        assert s.given[k] == i;
        StillAccounted(s, e, u, i, retryCount, pageSize);
      }
    }
  }

  lemma StillAccounted(s: State, e: Event, u: State, i: nat, retryCount: nat, pageSize: nat)
    requires Enabled(s, e) && u == Step(s, e, retryCount, pageSize) && Hands(s) && i < |s.tasks|
    requires Ended(s.tasks[i]) || Held(s, i) || (s.cancelled && Runnable(s.tasks[i]))
    ensures i < |u.tasks| && (Ended(u.tasks[i]) || Held(u, i) || (u.cancelled && Runnable(u.tasks[i])))
  {
    if Acts(e) {
      ActingIsLocal(s, e, retryCount, pageSize);
      var a := Actor(e);
      assert HandOk(s, a);
      if i == s.workers[a].task {
        if u.workers[a].Busy? {
          assert u.workers[a].task == i;
        }
      } else if Held(s, i) {
        var w :| 0 <= w < |s.workers| && s.workers[w].Busy? && s.workers[w].task == i;
        assert u.workers[w] == s.workers[w];
      }
    } else if Held(s, i) {
      var w :| 0 <= w < |s.workers| && s.workers[w].Busy? && s.workers[w].task == i;
      assert u.workers[w] == s.workers[w];
    }
  }

  lemma StepKeepsGiven(s: State, e: Event, t0: seq<Task>, retryCount: nat, pageSize: nat)
    requires Enabled(s, e) && GivenInOrder(s, t0) && PagedThrough(s, t0) && Rows(s, t0) && GrowingIds(t0)
    ensures GivenInOrder(Step(s, e, retryCount, pageSize), t0)
  {
    if Acts(e) {
      ActingIsLocal(s, e, retryCount, pageSize);
    } else if e.Take? || e.StopProducing? {
      assert Eligible(t0, s.after, s.page[0]);
    }
  }

  lemma StepKeepsPaging(s: State, e: Event, t0: seq<Task>, retryCount: nat, pageSize: nat)
    requires Enabled(s, e) && PagedThrough(s, t0) && Rows(s, t0) && GrowingIds(t0) && pageSize > 0
             && GivenInOrder(s, t0)
    ensures PagedThrough(Step(s, e, retryCount, pageSize), t0)
  {
    if Acts(e) {
      ActingIsLocal(s, e, retryCount, pageSize);
    } else if e.FetchPage? {
      FetchPages(s, t0, pageSize);
    } else if e.Take? {
      TakePages(s, e.w, t0, retryCount, pageSize);
    }
  }

  /** Statuses have changed since t0, but not of any task with an id above `after`. */
  lemma SameEligible(s: State, t0: seq<Task>, i: nat)
    requires Rows(s, t0) && GivenInOrder(s, t0)
    ensures Eligible(s.tasks, s.after, i) <==> Eligible(t0, s.after, i)
  {
  }

  lemma FetchPages(s: State, t0: seq<Task>, pageSize: nat)
    requires PagedThrough(s, t0) && Rows(s, t0) && GivenInOrder(s, t0) && s.producing && s.page == [] && pageSize > 0
    ensures PagedThrough(Step(s, FetchPage, 0, pageSize), t0)
  {
    var u := Step(s, FetchPage, 0, pageSize);
    var p := PageOf(s.tasks, s.after, pageSize);
    PageIsNext(s.tasks, s.after, pageSize, |s.tasks|, 0);
    forall k | 0 <= k < |p|
      ensures Eligible(t0, s.after, p[k])
    {
      SameEligible(s, t0, p[k]);
    }
    forall i | 0 <= i < |t0| && Eligible(t0, s.after, i)
      ensures i in p || (p != [] && forall k | 0 <= k < |p| :: p[k] < i)
    {
      SameEligible(s, t0, i);
      PageIsNext(s.tasks, s.after, pageSize, |s.tasks|, i);
    }
    forall i | 0 <= i < |t0| && Runnable(t0[i])
      ensures p == [] ==> i in s.given
    {
      assert t0[i].id > s.after ==> Eligible(t0, s.after, i);
    }
  }

  /** A runnable task between `after` and the page's first is the page's first. */
  lemma FirstIsNext(s: State, t0: seq<Task>, i: nat)
    requires PagedThrough(s, t0) && GrowingIds(t0) && s.producing && s.page != [] && s.page[0] < |t0|
    requires Eligible(t0, s.after, i) && t0[i].id <= t0[s.page[0]].id
    ensures i == s.page[0]
  {
  }

  predicate TookFirst(s: State, u: State, t0: seq<Task>) {
    && s.producing && s.page != [] && s.page[0] < |t0|
    && u.after == t0[s.page[0]].id && u.page == s.page[1..] && u.given == s.given + [s.page[0]] && u.producing
  }

  lemma StillEligible(s: State, u: State, t0: seq<Task>, k: nat)
    requires PagedThrough(s, t0) && GrowingIds(t0) && TookFirst(s, u, t0) && k < |u.page|
    ensures Eligible(t0, u.after, u.page[k])
  {
  }

  lemma GivenUpToAfter(s: State, u: State, t0: seq<Task>, i: nat)
    requires PagedThrough(s, t0) && GrowingIds(t0) && TookFirst(s, u, t0)
    requires i < |t0| && Runnable(t0[i]) && t0[i].id <= u.after
    ensures i in u.given
  {
    if t0[i].id > s.after {
      FirstIsNext(s, t0, i);
    }
  }

  lemma NoneSkipped(s: State, u: State, t0: seq<Task>, i: nat, k: nat)
    requires PagedThrough(s, t0) && TookFirst(s, u, t0) && k < |u.page| && Eligible(t0, u.after, i) && i !in u.page
    ensures u.page[k] < i
  {
    assert Eligible(t0, s.after, s.page[0]) && Eligible(t0, s.after, i);
    assert s.page == [s.page[0]] + u.page && u.page[k] == s.page[k + 1];
  }

  lemma PagedAfterTaking(s: State, u: State, t0: seq<Task>)
    requires PagedThrough(s, t0) && GrowingIds(t0) && TookFirst(s, u, t0)
    ensures PagedThrough(u, t0)
  {
    forall k | 0 <= k < |u.page|
      ensures Eligible(t0, u.after, u.page[k])
    {
      StillEligible(s, u, t0, k);
    }
    forall i | 0 <= i < |t0| && Runnable(t0[i]) && t0[i].id <= u.after
      ensures i in u.given
    {
      GivenUpToAfter(s, u, t0, i);
    }
    forall i, k | 0 <= k < |u.page| && Eligible(t0, u.after, i) && i !in u.page
      ensures u.page[k] < i
    {
      NoneSkipped(s, u, t0, i, k);
    }
  }

  lemma TakePages(s: State, w: nat, t0: seq<Task>, retryCount: nat, pageSize: nat)
    requires Enabled(s, Take(w)) && PagedThrough(s, t0) && Rows(s, t0) && GrowingIds(t0)
    ensures PagedThrough(Step(s, Take(w), retryCount, pageSize), t0)
  {
    assert SameRow(s.tasks[s.page[0]], t0[s.page[0]]);
    PagedAfterTaking(s, Step(s, Take(w), retryCount, pageSize), t0);
  }

  lemma StepKeepsAttempts(s: State, e: Event, t0: seq<Task>, retryCount: nat, pageSize: nat)
    requires Enabled(s, e) && Rows(s, t0) && Hands(s) && Attempts(s, t0, retryCount)
    ensures Attempts(Step(s, e, retryCount, pageSize), t0, retryCount)
  {
    var u := Step(s, e, retryCount, pageSize);
    if Acts(e) {
      ActingIsLocal(s, e, retryCount, pageSize);
      var i := s.workers[Actor(e)].task;
      assert HandOk(s, Actor(e)) && AttemptsFit(s.tasks[i], t0[i], retryCount);
      assert AttemptsFit(u.tasks[i], t0[i], retryCount);
    }
  }

  lemma StepKeepsCounts(s: State, e: Event, t0: seq<Task>, retryCount: nat, pageSize: nat)
    requires Enabled(s, e) && Rows(s, t0) && Hands(s) && Counted(s, t0)
    ensures Counted(Step(s, e, retryCount, pageSize), t0)
  {
    var u := Step(s, e, retryCount, pageSize);
    if Acts(e) {
      ActingIsLocal(s, e, retryCount, pageSize);
      var i := s.workers[Actor(e)].task;
      assert HandOk(s, Actor(e));
      CountUpdate(s.tasks, i, u.tasks[i], Done);
      CountUpdate(s.tasks, i, u.tasks[i], Skipped);
    }
  }

  lemma StepKeepsLeaving(s: State, e: Event, retryCount: nat, pageSize: nat)
    requires Enabled(s, e) && Leaving(s)
    ensures Leaving(Step(s, e, retryCount, pageSize))
  {
  }

  lemma StepKeepsInv(s: State, e: Event, t0: seq<Task>, retryCount: nat, pageSize: nat)
    requires Enabled(s, e) && Inv(s, t0, retryCount) && GrowingIds(t0) && pageSize > 0
    ensures Inv(Step(s, e, retryCount, pageSize), t0, retryCount)
  {
    StepKeepsLeaving(s, e, retryCount, pageSize);
    StepKeepsRows(s, e, t0, retryCount, pageSize);
    StepKeepsGiven(s, e, t0, retryCount, pageSize);
    StepKeepsPaging(s, e, t0, retryCount, pageSize);
    StepKeepsHands(s, e, t0, retryCount, pageSize);
    StepKeepsAccounted(s, e, t0, retryCount, pageSize);
    StepKeepsAttempts(s, e, t0, retryCount, pageSize);
    StepKeepsCounts(s, e, t0, retryCount, pageSize);
  }

  // ---- Runs ----

  ghost predicate Reachable(s: State, t0: seq<Task>, workers: nat, retryCount: nat, pageSize: nat) {
    exists es :: Possible(Initial(t0, workers), es, retryCount, pageSize)
      && Run(Initial(t0, workers), es, retryCount, pageSize) == s
  }

  /** A task table as the store keeps it: ids from 1 on, growing. */
  predicate TableOk(t0: seq<Task>) {
    GrowingIds(t0) && forall i | 0 <= i < |t0| :: t0[i].id > 0
  }

  lemma {:induction false} RunKeepsInv(s: State, es: seq<Event>, t0: seq<Task>, retryCount: nat, pageSize: nat)
    requires Possible(s, es, retryCount, pageSize) && Inv(s, t0, retryCount) && GrowingIds(t0) && pageSize > 0
    ensures Inv(Run(s, es, retryCount, pageSize), t0, retryCount)
    decreases |es|
  {
    if es != [] {
      var u := Step(s, es[0], retryCount, pageSize);
      assert Inv(u, t0, retryCount) by {
        StepKeepsInv(s, es[0], t0, retryCount, pageSize);
      }
      RunKeepsInv(u, es[1..], t0, retryCount, pageSize);
    }
  }

  lemma {:induction false} RunKeepsWorkers(s: State, es: seq<Event>, retryCount: nat, pageSize: nat)
    requires Possible(s, es, retryCount, pageSize)
    ensures |Run(s, es, retryCount, pageSize).workers| == |s.workers|
    decreases |es|
  {
    if es != [] {
      RunKeepsWorkers(Step(s, es[0], retryCount, pageSize), es[1..], retryCount, pageSize);
    }
  }

  lemma ReachableInv(s: State, t0: seq<Task>, workers: nat, retryCount: nat, pageSize: nat)
    requires Reachable(s, t0, workers, retryCount, pageSize) && TableOk(t0) && pageSize > 0
    ensures Inv(s, t0, retryCount) && |s.workers| == workers
  {
    var start := Initial(t0, workers);
    var es :| Possible(start, es, retryCount, pageSize) && Run(start, es, retryCount, pageSize) == s;
    RunKeepsInv(start, es, t0, retryCount, pageSize);
    RunKeepsWorkers(start, es, retryCount, pageSize);
  }

  /**
   * Hand-out. Although statuses change under the producer, no task is handed out twice, only runnable
   * ones are, and no two workers hold the same task; with one runnable task per path they never work
   * on the same path, so never on the same partial file or target.
   */
  lemma HandedOutOnce(s: State, t0: seq<Task>, workers: nat, retryCount: nat, pageSize: nat, v: nat, w: nat)
    requires Reachable(s, t0, workers, retryCount, pageSize) && TableOk(t0) && pageSize > 0
    ensures Increasing(s.given) && forall k | 0 <= k < |s.given| :: s.given[k] < |t0| && Runnable(t0[s.given[k]])
    ensures v < w < |s.workers| && s.workers[v].Busy? && s.workers[w].Busy? ==>
              && s.workers[v].task < |s.tasks| && s.workers[w].task < |s.tasks|
                 && s.workers[v].task != s.workers[w].task
              && (UniqueRunnable(t0) ==> s.tasks[s.workers[v].task].rel != s.tasks[s.workers[w].task].rel)
  {
    ReachableInv(s, t0, workers, retryCount, pageSize);
    if v < w < |s.workers| && s.workers[v].Busy? && s.workers[w].Busy? {
      assert HandOk(s, v) && HandOk(s, w);
      var i, j := s.workers[v].task, s.workers[w].task;
      assert SameRow(s.tasks[i], t0[i]) && SameRow(s.tasks[j], t0[j]);
    }
  }

  predicate AllGone(s: State) {
    forall w | 0 <= w < |s.workers| :: s.workers[w].Gone?
  }

  function CountRunnable(tasks: seq<Task>): nat {
    if tasks == [] then 0 else CountRunnable(tasks[..|tasks| - 1]) + if Runnable(tasks[|tasks| - 1]) then 1 else 0
  }

  lemma {:induction false} FinishedCounts(tasks: seq<Task>, t0: seq<Task>)
    requires |tasks| == |t0|
    requires forall i | 0 <= i < |t0| :: if Runnable(t0[i]) then Ended(tasks[i]) else tasks[i] == t0[i]
    ensures CountOf(tasks, Done) + CountOf(tasks, Skipped)
            == CountOf(t0, Done) + CountOf(t0, Skipped) + CountRunnable(t0)
  {
    if t0 != [] {
      FinishedCounts(tasks[..|t0| - 1], t0[..|t0| - 1]);
    }
  }

  datatype RunError = NoError | ConnectionLost | QueryFailed | Interrupted

  /** The error a run returns once its workers have left. */
  function Returned(s: State): RunError {
    if s.connLost then ConnectionLost
    else if s.queryFailed then QueryFailed
    else if s.cancelled then Interrupted
    else NoError
  }

  lemma WhatHappens(s: State, e: Event, retryCount: nat, pageSize: nat)
    requires Enabled(s, e)
    ensures var u := Step(s, e, retryCount, pageSize);
            && (u.connLost <==> s.connLost || e.DialFails?) && (u.queryFailed <==> s.queryFailed || e.PageFails?)
            && (u.cancelled <==> s.cancelled || e.Cancel? || e.DialFails?)
  {
  }

  lemma {:induction false} WhatHappened(s: State, es: seq<Event>, retryCount: nat, pageSize: nat)
    requires Possible(s, es, retryCount, pageSize)
    ensures var u := Run(s, es, retryCount, pageSize);
            && (u.connLost <==> s.connLost || exists e | e in es :: e.DialFails?)
            && (u.queryFailed <==> s.queryFailed || exists e | e in es :: e.PageFails?)
            && (u.cancelled <==> s.cancelled || exists e | e in es :: e.Cancel? || e.DialFails?)
    decreases |es|
  {
    if es != [] {
      var e, rest := es[0], es[1..];
      assert forall x :: x in es <==> x == e || x in rest;
      WhatHappens(s, e, retryCount, pageSize);
      WhatHappened(Step(s, e, retryCount, pageSize), rest, retryCount, pageSize);
    }
  }

  /**
   * The error a run returns, by what happened in it: a connection that could not be had again comes first, then
   * a page that could not be read, then the cancellation; without any of them there is none.
   */
  lemma ReturnedByEvents(es: seq<Event>, t0: seq<Task>, workers: nat, retryCount: nat, pageSize: nat)
    requires Possible(Initial(t0, workers), es, retryCount, pageSize)
    ensures Returned(Run(Initial(t0, workers), es, retryCount, pageSize)) ==
            if exists e | e in es :: e.DialFails? then ConnectionLost
            else if exists e | e in es :: e.PageFails? then QueryFailed
            else if exists e | e in es :: e.Cancel? then Interrupted
            else NoError
  {
    WhatHappened(Initial(t0, workers), es, retryCount, pageSize);
  }

  /**
   * Conservation. A run that returns no error ends with every task that was runnable done or skipped, each
   * handed out (exactly once), the others untouched, and the result counting exactly them.
   */
  lemma UndisturbedRunFinishesAll(s: State, t0: seq<Task>, workers: nat, retryCount: nat, pageSize: nat)
    requires Reachable(s, t0, workers, retryCount, pageSize) && TableOk(t0) && pageSize > 0 && workers > 0
    requires AllGone(s) && Returned(s) == NoError
    ensures |s.tasks| == |t0| && forall i | 0 <= i < |t0| ::
      if Runnable(t0[i]) then i in s.given && Ended(s.tasks[i]) else s.tasks[i] == t0[i]
    ensures s.downloaded + s.skipped == CountRunnable(t0)
  {
    ReachableInv(s, t0, workers, retryCount, pageSize);
    assert s.workers[0].Gone?;
    forall i | 0 <= i < |t0|
      ensures if Runnable(t0[i]) then i in s.given && Ended(s.tasks[i]) else s.tasks[i] == t0[i]
    {
      if Runnable(t0[i]) {
        var k :| 0 <= k < |s.given| && s.given[k] == i;
      }
    }
    FinishedCounts(s.tasks, t0);
  }

  /**
   * However a run is stopped, once no worker holds a task nothing is lost: every task that was runnable
   * is done, skipped, or runnable again. CrashStrandsIff says what a crash before that can leave.
   */
  lemma AbortedRunLosesNothing(s: State, t0: seq<Task>, workers: nat, retryCount: nat, pageSize: nat, i: nat)
    requires Reachable(s, t0, workers, retryCount, pageSize) && TableOk(t0) && pageSize > 0
    requires i < |t0| && Runnable(t0[i]) && forall w | 0 <= w < |s.workers| :: !s.workers[w].Busy?
    ensures i < |s.tasks| && (Ended(s.tasks[i]) || Runnable(s.tasks[i])) && s.tasks[i].rel == t0[i].rel
  {
    ReachableInv(s, t0, workers, retryCount, pageSize);
    assert SameRow(s.tasks[i], t0[i]);
    if i in s.given {
      var k :| 0 <= k < |s.given| && s.given[k] == i;
    }
  }

  /**
   * A task fails at most retryCount less its earlier attempts, or once if it had none left; and a restart does
   * not forget them.
   */
  lemma AttemptsAreBounded(s: State, t0: seq<Task>, workers: nat, retryCount: nat, pageSize: nat, i: nat)
    requires Reachable(s, t0, workers, retryCount, pageSize) && TableOk(t0) && pageSize > 0 && i < |t0|
    ensures i < |s.tasks| && 0 <= s.tasks[i].attempts - t0[i].attempts <= Max(1, retryCount - t0[i].attempts)
    ensures Reset(s.tasks)[i].attempts == s.tasks[i].attempts
  {
    ReachableInv(s, t0, workers, retryCount, pageSize);
    assert AttemptsFit(s.tasks[i], t0[i], retryCount);
  }

  // ---- Progress ----

  /** Until every worker has left, some step is possible. */
  lemma NeverStuck(s: State, t0: seq<Task>, workers: nat, retryCount: nat, pageSize: nat)
    requires Reachable(s, t0, workers, retryCount, pageSize) && TableOk(t0) && pageSize > 0 && !AllGone(s)
    ensures exists e :: Enabled(s, e) && !e.Cancel?
  {
    ReachableInv(s, t0, workers, retryCount, pageSize);
    var w :| 0 <= w < |s.workers| && !s.workers[w].Gone?;
    assert HandOk(s, w);
    if s.workers[w].Busy? {
      var e := match s.workers[w].phase
               case Marking => Mark(w)
               case Running => Succeed(w)
               case Failing => Decide(w)
               case Waiting => Again(w);
      assert Enabled(s, e);
    } else if !s.producing || s.cancelled {
      assert Enabled(s, Leave(w));
    } else if s.page == [] {
      assert Enabled(s, FetchPage);
    } else {
      assert Eligible(t0, s.after, s.page[0]);
      assert Enabled(s, Take(w));
    }
  }

  function Left(attempts: nat, retryCount: nat): nat {
    if attempts >= retryCount then 0 else retryCount - attempts
  }

  /** Steps a worker can still take with its task. */
  function HandRank(u: Worker, tasks: seq<Task>, retryCount: nat): nat {
    match u
    case Idle => 1
    case Gone => 0
    case Busy(i, phase) =>
      if i >= |tasks| then 1
      else
        var r := Left(tasks[i].attempts, retryCount);
        1 + match phase
            case Marking => 4 * r + 7
            case Running => 4 * r + 6
            case Failing => if r == 0 then 1 else 4 * r + 8
            case Waiting => 4 * r + 7
  }

  function HandsRank(us: seq<Worker>, tasks: seq<Task>, retryCount: nat): nat {
    if us == [] then 0 else HandsRank(us[..|us| - 1], tasks, retryCount) + HandRank(us[|us| - 1], tasks, retryCount)
  }

  function TaskRank(t: Task, retryCount: nat): nat {
    if Runnable(t) then 4 * Left(t.attempts, retryCount) + 9 else 0
  }

  /** Steps the tasks among the first n that are not handed out are good for. */
  function QueueRank(t0: seq<Task>, given: seq<nat>, retryCount: nat, n: nat): nat
    requires n <= |t0|
  {
    if n == 0 then 0
    else QueueRank(t0, given, retryCount, n - 1) + if n - 1 in given then 0 else TaskRank(t0[n - 1], retryCount)
  }

  function Rank(s: State, t0: seq<Task>, retryCount: nat): nat {
    HandsRank(s.workers, s.tasks, retryCount) + QueueRank(t0, s.given, retryCount, |t0|)
    + (if !s.producing then 0 else if s.page == [] then 2 else 1) + (if s.cancelled then 0 else 1)
  }

  lemma {:induction false} HandsUpdate(us: seq<Worker>, w: nat, u: Worker, tasks: seq<Task>, retryCount: nat)
    requires w < |us|
    ensures HandsRank(us[w := u], tasks, retryCount) + HandRank(us[w], tasks, retryCount)
      == HandsRank(us, tasks, retryCount) + HandRank(u, tasks, retryCount)
  {
    var n := |us| - 1;
    if w < n {
      HandsUpdate(us[..n], w, u, tasks, retryCount);
      assert us[w := u][..n] == us[..n][w := u];
    } else {
      assert us[w := u][..n] == us[..n];
    }
  }

  /** A row no worker holds does not matter to their rank. */
  lemma {:induction false} HandsElsewhere(us: seq<Worker>, i: nat, t: Task, tasks: seq<Task>, retryCount: nat)
    requires i < |tasks| && forall w | 0 <= w < |us| :: us[w].Busy? ==> us[w].task != i
    ensures HandsRank(us, tasks[i := t], retryCount) == HandsRank(us, tasks, retryCount)
  {
    if us != [] {
      HandsElsewhere(us[..|us| - 1], i, t, tasks, retryCount);
    }
  }

  lemma {:induction false} QueueTake(t0: seq<Task>, given: seq<nat>, i: nat, retryCount: nat, n: nat)
    requires n <= |t0| && i !in given && i < |t0|
    ensures QueueRank(t0, given + [i], retryCount, n) + (if i < n then TaskRank(t0[i], retryCount) else 0)
            == QueueRank(t0, given, retryCount, n)
  {
    if n > 0 {
      QueueTake(t0, given, i, retryCount, n - 1);
    }
  }

  /** A worker's step lowers its own rank; a cancellation may come with it. */
  lemma OwnRankFalls(s: State, e: Event, retryCount: nat, pageSize: nat)
    requires Enabled(s, e) && Acts(e) && Hands(s)
    ensures var u, w := Step(s, e, retryCount, pageSize), Actor(e);
            && w < |s.workers| && |u.workers| == |s.workers|
            && HandRank(u.workers[w], u.tasks, retryCount) < HandRank(s.workers[w], s.tasks, retryCount)
  {
  }

  lemma OthersRankSame(s: State, e: Event, retryCount: nat, pageSize: nat)
    requires Enabled(s, e) && Acts(e) && Hands(s)
    ensures var u, w := Step(s, e, retryCount, pageSize), Actor(e);
            && w < |s.workers| && |u.workers| == |s.workers|
            && HandsRank(u.workers, u.tasks, retryCount) - HandRank(u.workers[w], u.tasks, retryCount)
            == HandsRank(s.workers, s.tasks, retryCount) - HandRank(s.workers[w], s.tasks, retryCount)
  {
    var u, w := Step(s, e, retryCount, pageSize), Actor(e);
    ActingIsLocal(s, e, retryCount, pageSize);
    var i := s.workers[w].task;
    // first worker w lets go of its task, then the row changes, then w is as after the step
    var idle := s.workers[w := Idle];
    HandsUpdate(s.workers, w, Idle, s.tasks, retryCount);
    HandsElsewhere(idle, i, u.tasks[i], s.tasks, retryCount);
    HandsUpdate(idle, w, u.workers[w], u.tasks, retryCount);
    assert idle[w := u.workers[w]] == u.workers;
  }

  lemma ActingLowersRank(s: State, e: Event, t0: seq<Task>, retryCount: nat, pageSize: nat)
    requires Enabled(s, e) && Acts(e) && Hands(s)
    ensures Rank(Step(s, e, retryCount, pageSize), t0, retryCount) < Rank(s, t0, retryCount)
  {
    ActingIsLocal(s, e, retryCount, pageSize);
    OwnRankFalls(s, e, retryCount, pageSize);
    OthersRankSame(s, e, retryCount, pageSize);
  }

  lemma StepLowersRank(s: State, e: Event, t0: seq<Task>, retryCount: nat, pageSize: nat)
    requires Enabled(s, e) && Inv(s, t0, retryCount)
    ensures Rank(Step(s, e, retryCount, pageSize), t0, retryCount) < Rank(s, t0, retryCount)
  {
    if Acts(e) {
      ActingLowersRank(s, e, t0, retryCount, pageSize);
    } else if e.Take? {
      NotGivenYet(s, t0);
      QueueTake(t0, s.given, s.page[0], retryCount, |t0|);
      HandsUpdate(s.workers, e.w, Busy(s.page[0], Marking), s.tasks, retryCount);
      assert s.tasks[s.page[0]] == t0[s.page[0]];
    } else if e.Leave? {
      HandsUpdate(s.workers, e.w, Gone, s.tasks, retryCount);
    }
  }

  lemma {:induction false} RunLowersRank(s: State, es: seq<Event>, t0: seq<Task>, retryCount: nat, pageSize: nat)
    requires Possible(s, es, retryCount, pageSize) && Inv(s, t0, retryCount) && GrowingIds(t0) && pageSize > 0
    ensures |es| <= Rank(s, t0, retryCount)
    decreases |es|
  {
    if es != [] {
      var u := Step(s, es[0], retryCount, pageSize);
      assert Inv(u, t0, retryCount) by {
        StepKeepsInv(s, es[0], t0, retryCount, pageSize);
      }
      StepLowersRank(s, es[0], t0, retryCount, pageSize);
      RunLowersRank(u, es[1..], t0, retryCount, pageSize);
    }
  }

  /** Every run is finite, with a bound that depends only on the tasks, the workers and the retry count. */
  lemma RunsAreFinite(es: seq<Event>, t0: seq<Task>, workers: nat, retryCount: nat, pageSize: nat)
    requires Possible(Initial(t0, workers), es, retryCount, pageSize) && TableOk(t0) && pageSize > 0
    ensures |es| <= Rank(Initial(t0, workers), t0, retryCount)
  {
    RunLowersRank(Initial(t0, workers), es, t0, retryCount, pageSize);
  }

  // ---- Between runs: restart and the end of a cycle ----

  function ResetRow(t: Task): Task {
    if t.status == InProgress then t.(status := Pending) else t
  }

  /** ResetStaleInProgress, at start-up. */
  function Reset(tasks: seq<Task>): seq<Task> {
    seq(|tasks|, i requires 0 <= i < |tasks| => ResetRow(tasks[i]))
  }

  /**
   * What a crash and a restart leave of a task that was runnable: it is done, skipped or runnable again if
   * and only if no worker was between counting a failed attempt and deciding on it. In that case the
   * task stays failed, which the restart does not revive.
   */
  lemma CrashStrandsIff(s: State, t0: seq<Task>, workers: nat, retryCount: nat, pageSize: nat, i: nat)
    requires Reachable(s, t0, workers, retryCount, pageSize) && TableOk(t0) && pageSize > 0
    requires i < |t0| && Runnable(t0[i])
    ensures i < |Reset(s.tasks)| && Reset(s.tasks)[i].rel == t0[i].rel
    ensures Ended(Reset(s.tasks)[i]) || Runnable(Reset(s.tasks)[i]) <==> Busy(i, Failing) !in s.workers
  {
    ReachableInv(s, t0, workers, retryCount, pageSize);
    assert SameRow(s.tasks[i], t0[i]);
    if i in s.given {
      var k :| 0 <= k < |s.given| && s.given[k] == i;
      if Held(s, i) {
        var w :| 0 <= w < |s.workers| && s.workers[w].Busy? && s.workers[w].task == i;
        assert HandOk(s, w);
        OneHolder(s, i, w);
      }
    }
    if Busy(i, Failing) in s.workers {
      var w :| 0 <= w < |s.workers| && s.workers[w] == Busy(i, Failing);
      assert HandOk(s, w);
    }
  }

  /** If worker w holds the task, it is in its phase and no other. */
  lemma OneHolder(s: State, i: nat, w: nat)
    requires Hands(s) && w < |s.workers| && s.workers[w].Busy? && s.workers[w].task == i
    ensures Busy(i, Failing) in s.workers <==> s.workers[w].phase == Failing
  {
    if Busy(i, Failing) in s.workers {
      var v :| 0 <= v < |s.workers| && s.workers[v] == Busy(i, Failing);
      assert v == w;
    }
  }

  /** DELETE ... WHERE status = st. */
  function Without(tasks: seq<Task>, st: Status): seq<Task> {
    if tasks == [] then []
    else Without(tasks[..|tasks| - 1], st) + if tasks[|tasks| - 1].status == st then [] else [tasks[|tasks| - 1]]
  }

  lemma {:induction false} WithoutMembers(tasks: seq<Task>, st: Status, t: Task)
    ensures t in Without(tasks, st) <==> t in tasks && t.status != st
  {
    if tasks != [] {
      WithoutMembers(tasks[..|tasks| - 1], st, t);
      assert tasks == tasks[..|tasks| - 1] + [tasks[|tasks| - 1]];
    }
  }

  lemma {:induction false} WithoutKeepsUnique(tasks: seq<Task>, st: Status)
    requires UniqueRunnable(tasks)
    ensures UniqueRunnable(Without(tasks, st))
  {
    if tasks != [] {
      var n := |tasks| - 1;
      var init, last := tasks[..n], tasks[n];
      var before := Without(init, st);
      WithoutKeepsUnique(init, st);
      forall i | 0 <= i < |before| && Runnable(before[i]) && Runnable(last)
        ensures before[i].rel != last.rel
      {
        WithoutMembers(init, st, before[i]);
        var j :| 0 <= j < n && init[j] == before[i];
        assert tasks[j] == before[i];
      }
    }
  }

  /** The end of a cycle: done, skipped and failed tasks are deleted. */
  function EndOfCycle(tasks: seq<Task>): seq<Task> {
    Without(Without(Without(tasks, Done), Skipped), Failed)
  }

  /** What the end of a cycle leaves: the tasks still to be worked off, and nothing of the others. */
  lemma EndOfCycleLeaves(tasks: seq<Task>, t: Task)
    ensures t in EndOfCycle(tasks) <==> t in tasks && (t.status == Pending || t.status == InProgress)
  {
    WithoutMembers(tasks, Done, t);
    WithoutMembers(Without(tasks, Done), Skipped, t);
    WithoutMembers(Without(Without(tasks, Done), Skipped), Failed, t);
  }

  /**
   * Runnable uniqueness: with one runnable task per path at the start of a run, there is one in every
   * state of it, and after a crash in that state and a restart, and after the end of the cycle.
   */
  lemma RunnableStaysUnique(s: State, t0: seq<Task>, workers: nat, retryCount: nat, pageSize: nat)
    requires Reachable(s, t0, workers, retryCount, pageSize) && TableOk(t0) && pageSize > 0 && UniqueRunnable(t0)
    ensures UniqueRunnable(s.tasks) && UniqueRunnable(Reset(s.tasks)) && UniqueRunnable(EndOfCycle(s.tasks))
  {
    ReachableInv(s, t0, workers, retryCount, pageSize);
    forall i | 0 <= i < |t0| && Runnable(s.tasks[i])
      ensures Runnable(t0[i]) && s.tasks[i].rel == t0[i].rel
    {
      assert SameRow(s.tasks[i], t0[i]);
      if i in s.given {
        var k :| 0 <= k < |s.given| && s.given[k] == i;
      }
    }
    WithoutKeepsUnique(s.tasks, Done);
    WithoutKeepsUnique(Without(s.tasks, Done), Skipped);
    WithoutKeepsUnique(Without(Without(s.tasks, Done), Skipped), Failed);
  }

  // ---- The task table over its whole life ----

  /**
   * What happens to the table: a pass enqueues, the queue runs to some state (its end, or wherever a crash
   * stops it), the server restarts, a cycle ends.
   */
  datatype Era =
    | Enqueue(listing: seq<ClientRow>, files: seq<FileRow>, tol: int, cycle: nat)
    | RunsTo(s: State, workers: nat, retryCount: nat, pageSize: nat)
    | Restart
    | EndCycle

  ghost predicate CanFollow(t: seq<Task>, e: Era) {
    match e
    case Enqueue(listing, _, _, _) => UniqueClientRels(listing)
    case RunsTo(s, workers, retryCount, pageSize) => Reachable(s, t, workers, retryCount, pageSize) && pageSize > 0
    case Restart => true
    case EndCycle => true
  }

  function Next(t: seq<Task>, e: Era): seq<Task> {
    match e
    case Enqueue(listing, files, tol, cycle) => Enqueued(t, listing, files, tol, cycle)
    case RunsTo(s, _, _, _) => s.tasks
    case Restart => Reset(t)
    case EndCycle => EndOfCycle(t)
  }

  /** tables[k] is the task table in front of era k; the first one is empty. */
  ghost predicate IsHistory(tables: seq<seq<Task>>, eras: seq<Era>) {
    && |tables| == |eras| + 1 && tables[0] == []
    && forall k | 0 <= k < |eras| :: CanFollow(tables[k], eras[k]) && tables[k + 1] == Next(tables[k], eras[k])
  }

  /** An enqueue statement joins no unblocked listed file with two differing index rows. */
  predicate JoinsOnce(t: seq<Task>, e: Era) {
    e.Enqueue? ==> forall c | c in e.listing :: Blocked(t, c.rel, e.cycle) || |JoinRows(c, e.files, e.tol)| <= 1
  }

  predicate AllJoinOnce(tables: seq<seq<Task>>, eras: seq<Era>, n: nat)
    requires n <= |tables| && n <= |eras|
  {
    forall k | 0 <= k < n :: JoinsOnce(tables[k], eras[k])
  }

  predicate AlwaysUnique(tables: seq<seq<Task>>) {
    forall k | 0 <= k < |tables| :: UniqueRunnable(tables[k])
  }

  lemma UniqueOneMore(tables: seq<seq<Task>>, n: nat)
    requires 0 < n < |tables|
    ensures AlwaysUnique(tables[..n + 1]) <==> AlwaysUnique(tables[..n]) && UniqueRunnable(tables[n])
    ensures AlwaysUnique(tables[..n]) ==> UniqueRunnable(tables[n - 1])
  {
    assert forall k | 0 <= k < n :: tables[..n + 1][k] == tables[..n][k];
    assert tables[..n + 1][n] == tables[n] && tables[..n][n - 1] == tables[n - 1];
  }

  lemma {:induction false} WithoutKeepsTable(tasks: seq<Task>, st: Status)
    requires TableOk(tasks)
    ensures TableOk(Without(tasks, st))
  {
    if tasks != [] {
      var n := |tasks| - 1;
      WithoutKeepsTable(tasks[..n], st);
      forall t | t in Without(tasks[..n], st)
        ensures t.id < tasks[n].id
      {
        WithoutMembers(tasks[..n], st, t);
        LastIsLargest(tasks, t);
      }
      AppendLarger(Without(tasks[..n], st), tasks[n]);
    }
  }

  lemma LastIsLargest(tasks: seq<Task>, t: Task)
    requires GrowingIds(tasks) && tasks != [] && t in tasks[..|tasks| - 1]
    ensures t.id < tasks[|tasks| - 1].id
  {
    var j :| 0 <= j < |tasks| - 1 && tasks[j] == t;
  }

  lemma AppendLarger(tasks: seq<Task>, t: Task)
    requires TableOk(tasks) && t.id > 0 && forall u | u in tasks :: u.id < t.id
    ensures TableOk(tasks + [t])
  {
  }

  /** Every era keeps the ids growing. */
  lemma EraKeepsTable(t: seq<Task>, e: Era)
    requires TableOk(t) && CanFollow(t, e)
    ensures TableOk(Next(t, e))
  {
    match e
    case Enqueue(listing, files, tol, cycle) =>
      EnqueueKeepsIds(t, listing, files, tol, cycle);
      FreshShape(DiffOf(listing, files, tol), t, cycle);
    case RunsTo(s, workers, retryCount, pageSize) =>
      ReachableInv(s, t, workers, retryCount, pageSize);
      assert forall i | 0 <= i < |t| :: SameRow(s.tasks[i], t[i]);
    case Restart =>
    case EndCycle =>
      WithoutKeepsTable(t, Done);
      WithoutKeepsTable(Without(t, Done), Skipped);
      WithoutKeepsTable(Without(Without(t, Done), Skipped), Failed);
  }

  /** An era keeps one runnable task per path, an enqueue exactly when it joins once. */
  lemma EraKeepsUniqueIff(t: seq<Task>, e: Era)
    requires TableOk(t) && CanFollow(t, e) && UniqueRunnable(t)
    ensures UniqueRunnable(Next(t, e)) <==> JoinsOnce(t, e)
  {
    match e
    case Enqueue(listing, files, tol, cycle) => EnqueueKeepsUnique(listing, files, t, tol, cycle);
    case RunsTo(s, workers, retryCount, pageSize) => RunnableStaysUnique(s, t, workers, retryCount, pageSize);
    case Restart =>
    case EndCycle =>
      WithoutKeepsUnique(t, Done);
      WithoutKeepsUnique(Without(t, Done), Skipped);
      WithoutKeepsUnique(Without(Without(t, Done), Skipped), Failed);
  }

  /**
   * Over any history of passes, runs (complete or crashed anywhere), restarts and ends of cycles, up to any
   * point of it: every table had one runnable task per path if and only if every enqueue statement so far
   * joined no unblocked listed file with two differing index rows.
   */
  lemma {:induction false} HistoryStaysUniqueIff(tables: seq<seq<Task>>, eras: seq<Era>, n: nat)
    requires IsHistory(tables, eras) && n <= |eras|
    ensures TableOk(tables[n]) && (AlwaysUnique(tables[..n + 1]) <==> AllJoinOnce(tables, eras, n))
  {
    if n > 0 {
      HistoryStaysUniqueIff(tables, eras, n - 1);
      EraKeepsTable(tables[n - 1], eras[n - 1]);
      UniqueOneMore(tables, n);
      if AlwaysUnique(tables[..n]) {
        EraKeepsUniqueIff(tables[n - 1], eras[n - 1]);
      }
    }
  }
}
