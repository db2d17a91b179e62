/**
 * The cycle scheduler: `running` and `pending` under a mutex, a chain goroutine that runs cycles,
 * triggers from the ticker, and cancellation. Counters stand for goroutines, so that "at most one"
 * is something to prove.
 */
module Scheduler {
  /**
   * `starting`, `inCycle` and `ended` count the chains about to call RunCycle, inside it, and back
   * from it but not yet in the mutex. `begun` and `triggers` count cycles and triggers so far, and
   * `unserved` the triggers since the last cycle began.
   */
  datatype State = State(running: bool, pending: bool, cancelled: bool, starting: nat, inCycle: nat, ended: nat,
                         begun: nat, triggers: nat, unserved: nat)

  datatype Event = Trigger | Begin | End | Check | Cancel

  function Initial(): State {
    State(false, false, false, 0, 0, 0, 0, 0, 0)
  }

  predicate Enabled(s: State, e: Event) {
    match e
    case Trigger => true
    case Begin => s.starting > 0
    case End => s.inCycle > 0
    case Check => s.ended > 0
    case Cancel => true
  }

  function Step(s: State, e: Event): State
    requires Enabled(s, e)
  {
    match e
    case Trigger =>
      var t := s.(triggers := s.triggers + 1, unserved := s.unserved + 1);
      if s.running then t.(pending := true) else t.(running := true, starting := s.starting + 1)
    case Begin => s.(starting := s.starting - 1, inCycle := s.inCycle + 1, begun := s.begun + 1, unserved := 0)
    case End => s.(inCycle := s.inCycle - 1, ended := s.ended + 1)
    case Check =>
      if s.pending && !s.cancelled then s.(ended := s.ended - 1, pending := false, starting := s.starting + 1)
      else s.(ended := s.ended - 1, running := false)
    case Cancel => s.(cancelled := true)
  }

  predicate Possible(s: State, es: seq<Event>)
    decreases |es|
  {
    es == [] || (Enabled(s, es[0]) && Possible(Step(s, es[0]), es[1..]))
  }

  function Run(s: State, es: seq<Event>): State
    requires Possible(s, es)
    decreases |es|
  {
    if es == [] then s else Run(Step(s, es[0]), es[1..])
  }

  predicate Inv(s: State) {
    && s.starting + s.inCycle + s.ended == (if s.running then 1 else 0)
    && (s.pending ==> s.running || s.cancelled)
    && (s.unserved > 0 ==> s.pending || s.starting > 0)
    && s.begun + s.starting + (if s.pending then 1 else 0) <= s.triggers
  }

  lemma {:induction false} InvHolds(s: State, es: seq<Event>)
    requires Inv(s) && Possible(s, es)
    ensures Inv(Run(s, es))
    decreases |es|
  {
    if es != [] {
      InvHolds(Step(s, es[0]), es[1..]);
    }
  }

  /** A state some run from the start leads to. */
  ghost predicate Reachable(s: State) {
    exists es :: Possible(Initial(), es) && Run(Initial(), es) == s
  }

  lemma ReachableInv(s: State)
    requires Reachable(s)
    ensures Inv(s)
  {
    var start := Initial();
    var es :| Possible(start, es) && Run(start, es) == s;
    InvHolds(start, es);
  }

  /** In every run at most one cycle is active, and no cycle begins without a trigger of its own. */
  lemma AtMostOneCycle(s: State)
    requires Reachable(s)
    ensures s.inCycle <= 1 && s.begun <= s.triggers
  {
    ReachableInv(s);
  }

  /**
   * No lost trigger: once no chain is left, every trigger has been followed by a cycle that began
   * after it, unless the service was cancelled while that trigger was pending (the exact condition is
   * TriggerIsLostIff).
   */
  lemma NoLostTrigger(s: State)
    requires Reachable(s) && !s.running
    ensures s.unserved > 0 ==> s.cancelled && s.pending
  {
    ReachableInv(s);
  }

  /** The exception is real: a trigger during the last cycle before cancellation gets no cycle. */
  lemma CancelledTriggerIsLost()
    ensures var es := [Trigger, Begin, Trigger, Cancel, End, Check];
            Possible(Initial(), es) && !Run(Initial(), es).running && Run(Initial(), es).unserved == 1
  {
  }

  // ---- Triggers during one cycle ----

  function Repeat(k: nat): (es: seq<Event>)
    ensures |es| == k
  {
    if k == 0 then [] else [Trigger] + Repeat(k - 1)
  }

  /** The state after k triggers that find the chain running. */
  function Triggered(s: State, k: nat): State {
    s.(pending := s.pending || k > 0, triggers := s.triggers + k, unserved := s.unserved + k)
  }

  lemma {:induction false} ManyTriggers(s: State, k: nat, rest: seq<Event>)
    requires s.running && Possible(Triggered(s, k), rest)
    ensures Possible(s, Repeat(k) + rest) && Run(s, Repeat(k) + rest) == Run(Triggered(s, k), rest)
    decreases k
  {
    if k == 0 {
      assert Repeat(0) + rest == rest;
    } else {
      assert (Repeat(k) + rest)[1..] == Repeat(k - 1) + rest;
      var t := Step(s, Trigger);
      assert Triggered(t, k - 1) == Triggered(s, k);
      ManyTriggers(t, k - 1, rest);
    }
  }

  /** A lone chain inside a cycle, nothing pending. */
  predicate InsideCycle(s: State) {
    Inv(s) && s.inCycle == 1 && !s.pending && !s.cancelled
  }

  /**
   * Any number of triggers during one cycle cause exactly one further cycle: when the cycle ends the
   * chain starts over if there was at least one, with nothing pending, and otherwise stops.
   */
  lemma TriggersCoalesce(s: State, k: nat)
    requires InsideCycle(s)
    ensures Possible(s, Repeat(k) + [End, Check])
    ensures var t := Run(s, Repeat(k) + [End, Check]);
            && !t.pending && t.begun == s.begun && t.triggers == s.triggers + k
            && t.starting == (if k > 0 then 1 else 0) && t.running == (k > 0)
  {
    var m := Triggered(s, k);
    assert [End, Check][1..] == [Check] && [Check][1..] == [];
    assert Possible(Step(m, End), [Check]);
    ManyTriggers(s, k, [End, Check]);
    assert Run(m, [End, Check]) == Run(Step(m, End), [Check]) == Step(Step(m, End), Check);
  }

  // ---- Draining ----

  /** The only thing a chain can do next. */
  function ChainEvent(s: State): Event
    requires s.starting + s.inCycle + s.ended > 0
    ensures Enabled(s, ChainEvent(s))
  {
    if s.starting > 0 then Begin else if s.inCycle > 0 then End else Check
  }

  function Rank(s: State): nat {
    (if s.pending && !s.cancelled then 3 else 0) + 3 * s.starting + 2 * s.inCycle + s.ended
  }

  function Drain(s: State): (t: State)
    requires Inv(s)
    ensures Inv(t) && !t.running
    decreases Rank(s)
  {
    if s.running then Drain(Step(s, ChainEvent(s))) else s
  }

  /**
   * Left to itself the scheduler stops. A trigger is then unserved if and only if the service was
   * cancelled while one was waiting and no chain was about to begin a cycle.
   */
  lemma {:induction false} TriggerIsLostIff(s: State)
    requires Inv(s)
    ensures Drain(s).unserved > 0 <==> s.cancelled && s.unserved > 0 && s.starting == 0
    ensures Drain(s).cancelled == s.cancelled && Drain(s).triggers == s.triggers
    decreases Rank(s)
  {
    if s.running {
      TriggerIsLostIff(Step(s, ChainEvent(s)));
    }
  }

  /**
   * So a service that is not cancelled serves every trigger, with at least one cycle begun since if any
   * was waiting.
   */
  lemma {:induction false} DrainServesAll(s: State)
    requires Inv(s) && !s.cancelled
    ensures Drain(s).unserved == 0 && Drain(s).begun >= s.begun && (s.unserved > 0 ==> Drain(s).begun > s.begun)
    decreases Rank(s)
  {
    TriggerIsLostIff(s);
    if s.running {
      DrainServesAll(Step(s, ChainEvent(s)));
    }
  }

  class Cycles {
    var running: bool
    var pending: bool
    var cancelled: bool
    ghost var starting: nat
    ghost var inCycle: nat
    ghost var ended: nat
    ghost var begun: nat
    ghost var triggers: nat
    ghost var unserved: nat

    ghost function St(): State
      reads this
    {
      State(running, pending, cancelled, starting, inCycle, ended, begun, triggers, unserved)
    }

    constructor ()
      ensures St() == Initial()
    {
      running, pending, cancelled := false, false, false;
      starting, inCycle, ended, begun, triggers, unserved := 0, 0, 0, 0, 0, 0;
    }

    /** trigger: mark pending behind a running chain, or start one; `spawn` asks for the goroutine. */
    method DoTrigger() returns (spawn: bool)
      modifies this
      ensures St() == Step(old(St()), Trigger) && spawn == !old(running)
    {
      triggers, unserved := triggers + 1, unserved + 1;
      if running {
        if !pending {
          pending := true;
        }
        return false;
      }
      running := true;
      starting := starting + 1;
      return true;
    }

    /** runChain after RunCycle has returned: `again` asks for another cycle. */
    method DoCheck() returns (again: bool)
      requires ended > 0
      modifies this
      ensures St() == Step(old(St()), Check) && again == (old(pending) && !cancelled)
    {
      ended := ended - 1;
      if pending && !cancelled {
        pending := false;
        starting := starting + 1;
        return true;
      }
      running := false;
      return false;
    }
  }
}
