/**
 * The lock-free peak of parallel transfers: an atomic counter of active workers and a compare-and-swap
 * loop that raises the peak. Every atomic access is one step, so all interleavings are covered.
 */
module Peak {
  import opened Basics

  /** Where a worker is: between tasks, in the loop with its own count, with a loaded peak, or past the loop. */
  datatype Pc = Idle | Looping(cur: nat) | Loaded(cur: nat, p: nat) | Working

  /** `highest` is the largest count any increment has returned. */
  datatype State = State(pc: seq<Pc>, active: nat, peak: nat, highest: nat)

  datatype Event = Enter(w: nat) | Load(w: nat) | Swap(w: nat) | Leave(w: nat)

  predicate Enabled(s: State, e: Event) {
    && e.w < |s.pc|
    && match e
       case Enter(w) => s.pc[w].Idle?
       case Load(w) => s.pc[w].Looping?
       case Swap(w) => s.pc[w].Loaded?
       case Leave(w) => s.pc[w].Working? && s.active > 0
  }

  function Step(s: State, e: Event): State
    requires Enabled(s, e)
  {
    match e
    case Enter(w) =>
      s.(pc := s.pc[w := Looping(s.active + 1)], active := s.active + 1, highest := Max(s.highest, s.active + 1))
    case Load(w) =>
      var cur := s.pc[w].cur;
      s.(pc := s.pc[w := if cur <= s.peak then Working else Loaded(cur, s.peak)])
    case Swap(w) =>
      var cur := s.pc[w].cur;
      if s.peak == s.pc[w].p then s.(pc := s.pc[w := Working], peak := cur)
      else s.(pc := s.pc[w := Looping(cur)])
    case Leave(w) => s.(pc := s.pc[w := Idle], active := s.active - 1)
  }

  function Busy(pc: seq<Pc>): nat {
    if pc == [] then 0 else Busy(pc[..|pc| - 1]) + if pc[|pc| - 1].Idle? then 0 else 1
  }

  predicate InLoop(p: Pc) {
    p.Looping? || p.Loaded?
  }

  ghost predicate Inv(s: State) {
    && s.active == Busy(s.pc) && s.peak <= s.highest <= |s.pc|
    && (forall w | 0 <= w < |s.pc| && InLoop(s.pc[w]) :: s.pc[w].cur <= s.highest)
    && (forall w | 0 <= w < |s.pc| && s.pc[w].Loaded? :: s.pc[w].p < s.pc[w].cur && s.pc[w].p <= s.peak)
    // the largest count is either recorded or still carried by a worker in the loop
    && (s.highest == s.peak || exists w :: 0 <= w < |s.pc| && InLoop(s.pc[w]) && s.pc[w].cur == s.highest)
  }

  lemma {:induction false} BusyUpdate(pc: seq<Pc>, w: nat, p: Pc)
    requires w < |pc|
    ensures Busy(pc[w := p]) == Busy(pc) - (if pc[w].Idle? then 0 else 1) + (if p.Idle? then 0 else 1)
  {
    var n := |pc| - 1;
    if w < n {
      BusyUpdate(pc[..n], w, p);
      assert pc[w := p][..n] == pc[..n][w := p];
    } else {
      assert pc[w := p][..n] == pc[..n];
    }
  }

  lemma {:induction false} BusyBound(pc: seq<Pc>)
    ensures Busy(pc) <= |pc|
    ensures forall w | 0 <= w < |pc| && pc[w].Idle? :: Busy(pc) < |pc|
    ensures forall w | 0 <= w < |pc| && !pc[w].Idle? :: Busy(pc) > 0
  {
    if pc != [] {
      BusyBound(pc[..|pc| - 1]);
      forall w | 0 <= w < |pc| - 1
        ensures pc[..|pc| - 1][w] == pc[w]
      {
      }
    }
  }

  lemma StepKeepsInv(s: State, e: Event)
    requires Inv(s) && Enabled(s, e)
    ensures Inv(Step(s, e))
  {
    var t := Step(s, e);
    BusyUpdate(s.pc, e.w, t.pc[e.w]);
    BusyBound(s.pc);
    if t.highest != t.peak {
      if t.highest == s.highest && s.highest != s.peak {
        var w :| 0 <= w < |s.pc| && InLoop(s.pc[w]) && s.pc[w].cur == s.highest;
        assert InLoop(t.pc[w]) && t.pc[w].cur == t.highest;
      } else {
        assert InLoop(t.pc[e.w]) && t.pc[e.w].cur == t.highest;
      }
    }
  }

  predicate Possible(s: State, es: seq<Event>)
    decreases |es|
  {
    es == [] || (Enabled(s, es[0]) && Possible(Step(s, es[0]), es[1..]))
  }

  function Run(s: State, es: seq<Event>): State
    requires Possible(s, es)
    decreases |es|
  {
    if es == [] then s else Run(Step(s, es[0]), es[1..])
  }

  lemma {:induction false} RunKeepsInv(s: State, es: seq<Event>)
    requires Inv(s) && Possible(s, es)
    ensures Inv(Run(s, es)) && |Run(s, es).pc| == |s.pc|
    decreases |es|
  {
    if es != [] {
      StepKeepsInv(s, es[0]);
      RunKeepsInv(Step(s, es[0]), es[1..]);
    }
  }

  function Initial(workers: nat): State {
    State(seq(workers, i => Idle), 0, 0, 0)
  }

  lemma {:induction false} NobodyBusy(workers: nat)
    ensures Busy(seq(workers, i => Idle)) == 0
  {
    if workers > 0 {
      NobodyBusy(workers - 1);
      assert seq(workers, i => Idle)[..workers - 1] == seq(workers - 1, i => Idle);
    }
  }

  /**
   * In every interleaving, once nobody is in the loop the peak is the largest count returned, and never above
   * the workers.
   */
  lemma PeakIsExact(workers: nat, es: seq<Event>)
    requires Possible(Initial(workers), es)
    ensures var s := Run(Initial(workers), es);
            && s.peak <= s.highest <= workers
            && ((forall w | 0 <= w < |s.pc| :: !InLoop(s.pc[w])) ==> s.peak == s.highest)
  {
    NobodyBusy(workers);
    RunKeepsInv(Initial(workers), es);
  }

  /** Every failed swap is justified: the peak rose strictly since that worker loaded it. */
  lemma FailedSwapMeansRise(workers: nat, es: seq<Event>, w: nat)
    requires Possible(Initial(workers), es)
    requires Enabled(Run(Initial(workers), es), Swap(w))
    ensures var s := Run(Initial(workers), es);
            Step(s, Swap(w)).pc[w].Looping? <==> s.peak > s.pc[w].p
  {
    NobodyBusy(workers);
    RunKeepsInv(Initial(workers), es);
  }

  /** The peak never falls, and each successful swap raises it. */
  lemma PeakRises(s: State, e: Event)
    requires Inv(s) && Enabled(s, e)
    ensures Step(s, e).peak >= s.peak
    ensures e.Swap? && Step(s, e).pc[e.w].Working? ==> Step(s, e).peak > s.peak
  {
  }
}
