/** No circular wait, and some thread can always go on. */
module TableSetProgress {
  import opened Staging
  import opened TableSet
  import opened TableSetSafety
  import opened TableSetRuns

  // ---------------------------------------------------------------- who waits for whom

  /** The thread `t` cannot go on without: the holder of the mutex it is about to take, or the owner of the load
      slot it sleeps on. */
  function WaitsFor(s: State, t: Tid): Option<Tid> {
    var pc, loads := PcOf(s, t), s.mem.sh.loads;
    if pc.LoadWaiting? then if pc.n in loads then Some(loads[pc.n]) else None
    else if Wants(pc).Some? && Wants(pc).value in s.locks then Some(s.locks[Wants(pc).value])
    else None
  }

  function LockRank(l: Lock): nat {
    match l
    case LoadMutex => 1
    case NamesMutex => 2
    case EntryMutex => 3
  }

  /** The order: sleepers, then load < names < entry, then threads that wait for nothing. */
  function Rank(pc: Pc): nat {
    if pc.LoadWaiting? then 0 else if Wants(pc).Some? then LockRank(Wants(pc).value) else 4
  }

  /** A thread only asks for mutexes above those it holds, and sleeps on the condition variable holding none. */
  lemma AsksUpwards(pc: Pc, l: Lock)
    requires l in Holds(pc)
    ensures LockRank(l) < Rank(pc)
  {
  }

  lemma FetcherRank(pc: Pc)
    requires Fetches(pc).Some?
    ensures 0 < Rank(pc)
  {
  }

  lemma WaitsClimb(s: State, t: Tid)
    requires LocksOk(s) && SlotsOk(s) && WaitsFor(s, t).Some?
    ensures Rank(PcOf(s, t)) < Rank(PcOf(s, WaitsFor(s, t).value))
  {
    var pc, u := PcOf(s, t), WaitsFor(s, t).value;
    hide Holds, Fetches, Wants, LockRank, PcOf;
    if pc.LoadWaiting? {
      assert Fetches(PcOf(s, u)) == Some(pc.n);
      FetcherRank(PcOf(s, u));
    } else {
      assert Wants(pc).value in Holds(PcOf(s, u));
      AsksUpwards(PcOf(s, u), Wants(pc).value);
    }
  }

  ghost predicate WaitChain(s: State, chain: seq<Tid>) {
    |chain| > 0 && forall i :: 0 <= i < |chain| - 1 ==> WaitsFor(s, chain[i]) == Some(chain[i + 1])
  }

  lemma {:induction false} ChainClimbs(s: State, chain: seq<Tid>, i: nat, j: nat)
    requires LocksOk(s) && SlotsOk(s) && WaitChain(s, chain) && i <= j < |chain|
    ensures Rank(PcOf(s, chain[i])) + (j - i) <= Rank(PcOf(s, chain[j]))
  {
    hide LocksOk, SlotsOk, WaitsFor, Rank;
    if i < j {
      ChainClimbs(s, chain, i, j - 1);
      assert WaitsFor(s, chain[j - 1]) == Some(chain[j - 1 + 1]);
      WaitsClimb(s, chain[j - 1]);
    }
  }

  /** In no reachable state do threads wait for one another in a circle. */
  lemma NoCircularWait(states: seq<State>, events: seq<Event>, k: nat, chain: seq<Tid>)
    requires Run(states, events) && k < |states| && WaitChain(states[k], chain) && |chain| > 1
    ensures chain[0] != chain[|chain| - 1] && |chain| <= 5
  {
    RunsKeepInv(states, events, k);
    hide Rank;
    ChainClimbs(states[k], chain, 0, |chain| - 1);
    RankAtMost(PcOf(states[k], chain[|chain| - 1]));
  }

  lemma RankAtMost(pc: Pc)
    ensures Rank(pc) <= 4
  {
    hide Wants;
  }

  // ---------------------------------------------------------------- some thread can always go on

  /** A step takes no mutex but the one its thread is recorded as wanting. */
  lemma AcquiresGet(m: Mem, t: Tid, pc: Pc, c: Choice, l: Lock)
    requires GetStep(m, t, pc, c).Some?
    requires l in Holds(GetStep(m, t, pc, c).value.pc) && l !in Holds(pc)
    ensures Wants(pc) == Some(l)
  {
    hide Keep;
  }

  lemma AcquiresLoad(m: Mem, t: Tid, pc: Pc, c: Choice, l: Lock)
    requires LoadStep(m, t, pc, c).Some?
    requires l in Holds(LoadStep(m, t, pc, c).value.pc) && l !in Holds(pc)
    ensures Wants(pc) == Some(l)
  {
    hide StoreLoaded;
  }

  lemma AcquiresScan(m: Mem, t: Tid, pc: Pc, c: Choice, pend: Option<Scope>, l: Lock)
    requires ScanStep(m, t, pc, c, pend).Some?
    requires l in Holds(ScanStep(m, t, pc, c, pend).value.pc) && l !in Holds(pc)
    ensures Wants(pc) == Some(l)
  {
    hide Keep, Fill, Listed;
  }

  lemma AcquiresInvalidate(m: Mem, t: Tid, pc: Pc, c: Choice, l: Lock)
    requires InvalidateStep(m, t, pc, c).Some?
    requires l in Holds(InvalidateStep(m, t, pc, c).value.pc) && l !in Holds(pc)
    ensures Wants(pc) == Some(l)
  {
  }

  lemma BeginAcquiresNothing(m: Mem, t: Tid, c: Choice)
    requires Begin(m, t, c).Some?
    ensures Holds(Begin(m, t, c).value.pc) == {}
  {
  }

  lemma Acquires(m: Mem, t: Tid, pc: Pc, c: Choice, pend: Option<Scope>, l: Lock)
    requires Step(m, t, pc, c, pend).Some?
    requires l in Holds(Step(m, t, pc, c, pend).value.pc) && l !in Holds(pc)
    ensures Wants(pc) == Some(l)
  {
    hide GetStep, LoadStep, ScanStep, InvalidateStep, Begin, Holds, Wants;
    if pc.Idle? {
      BeginAcquiresNothing(m, t, c);
    } else if InGet(pc) {
      AcquiresGet(m, t, pc, c, l);
    } else if InLoad(pc) {
      AcquiresLoad(m, t, pc, c, l);
    } else if InScan(pc) {
      AcquiresScan(m, t, pc, c, pend, l);
    } else {
      AcquiresInvalidate(m, t, pc, c, l);
    }
  }

  /** The server answering, and otherwise going on. */
  ghost function Forward(m: Mem, pc: Pc): Choice {
    match pc
    case GetFilter(_) => Filtered(false)
    case LoadFetch(_, _, _) => Answer(true, false, m.clock)
    case ScanLoad(_, _, _) => ListingFailed
    case ScanCallback(_, _, _, _, todo) => if todo == {} then Go else var e :| e in todo; Next(e)
    case _ => Go
  }

  lemma ForwardGet(m: Mem, t: Tid, pc: Pc)
    requires InGet(pc)
    ensures GetStep(m, t, pc, Forward(m, pc)).Some?
  {
    hide Keep;
  }

  lemma ForwardLoad(m: Mem, t: Tid, pc: Pc)
    requires InLoad(pc) && ThreadOk(m, t, pc)
    ensures LoadStep(m, t, pc, Forward(m, pc)).Some?
  {
    hide StoreLoaded, FetchOk, Cleared;
  }

  lemma ForwardScan(m: Mem, t: Tid, pc: Pc, pend: Option<Scope>)
    requires InScan(pc)
    ensures ScanStep(m, t, pc, Forward(m, pc), pend).Some?
  {
    hide Keep, Fill, Listed;
  }

  lemma ForwardInvalidate(m: Mem, t: Tid, pc: Pc)
    requires !pc.Idle? && !InGet(pc) && !InLoad(pc) && !InScan(pc)
    ensures InvalidateStep(m, t, pc, Forward(m, pc)).Some?
  {
  }

  lemma ForwardSteps(m: Mem, t: Tid, pc: Pc, pend: Option<Scope>)
    requires !pc.Idle? && ThreadOk(m, t, pc)
    ensures Step(m, t, pc, Forward(m, pc), pend).Some?
  {
    hide GetStep, LoadStep, ScanStep, InvalidateStep, Forward, ThreadOk;
    if InGet(pc) {
      ForwardGet(m, t, pc);
    } else if InLoad(pc) {
      ForwardLoad(m, t, pc);
    } else if InScan(pc) {
      ForwardScan(m, t, pc, pend);
    } else {
      ForwardInvalidate(m, t, pc);
    }
  }

  lemma UnblockedMoves(s: State, t: Tid)
    requires Inv(s) && !PcOf(s, t).Idle? && WaitsFor(s, t) == None
    ensures Do(s, t, Forward(s.mem, PcOf(s, t))).Some?
  {
    var pc, pend := PcOf(s, t), PendingOf(s);
    hide Step, Forward, Holds, Wants, ThreadOk, LocksOk, MemOk, SeenOk, SlotsOk, PcOf;
    var c := Forward(s.mem, pc);
    ForwardSteps(s.mem, t, pc, pend);
    var pc' := Step(s.mem, t, pc, c, pend).value.pc;
    forall l | l in Holds(pc') && l !in Holds(pc) ensures l !in s.locks {
      Acquires(s.mem, t, pc, c, pend, l);
      SleeperWantsNothing(pc);
    }
  }

  lemma SleeperWantsNothing(pc: Pc)
    ensures pc.LoadWaiting? ==> Wants(pc) == None
  {
  }

  lemma IdleWaitsForNothing(s: State, t: Tid)
    requires LocksOk(s) && SlotsOk(s) && WaitsFor(s, t).Some?
    ensures !PcOf(s, WaitsFor(s, t).value).Idle?
  {
    var pc, u := PcOf(s, t), WaitsFor(s, t).value;
    hide Wants, PcOf;
    if pc.LoadWaiting? {
      assert Fetches(PcOf(s, u)) == Some(pc.n);
    } else {
      assert Wants(pc).value in Holds(PcOf(s, u));
    }
  }

  lemma {:induction false} SomeoneMoves(s: State, t: Tid) returns (chain: seq<Tid>)
    requires Inv(s) && !PcOf(s, t).Idle?
    ensures WaitChain(s, chain) && chain[0] == t
    ensures var u := chain[|chain| - 1]; Do(s, u, Forward(s.mem, PcOf(s, u))).Some?
    decreases 4 - Rank(PcOf(s, t))
  {
    hide Do, Inv, Rank, Forward, LocksOk, SlotsOk, WaitsFor;
    assert LocksOk(s) && SlotsOk(s) by { InvParts(s); }
    if WaitsFor(s, t) == None {
      UnblockedMoves(s, t);
      return [t];
    }
    var u := WaitsFor(s, t).value;
    IdleWaitsForNothing(s, t);
    WaitsClimb(s, t);
    RankAtMost(PcOf(s, u));
    RankAtMost(PcOf(s, t));
    var rest := SomeoneMoves(s, u);
    chain := [t] + rest;
    assert forall i :: 0 <= i < |rest| - 1 ==> WaitsFor(s, rest[i]) == Some(rest[i + 1]);
  }

  lemma InvParts(s: State)
    requires Inv(s)
    ensures LocksOk(s) && SlotsOk(s)
  {
  }

  /** From every reachable state and for every thread in the middle of an operation, following who it waits for
      leads in at most four hops to a thread that can take its next step. */
  lemma NoDeadlock(states: seq<State>, events: seq<Event>, k: nat, t: Tid)
    requires Run(states, events) && k < |states| && !PcOf(states[k], t).Idle?
    ensures exists chain: seq<Tid> ::
              WaitChain(states[k], chain) && chain[0] == t && |chain| <= 5
              && Apply(states[k], By(chain[|chain| - 1], Forward(states[k].mem, PcOf(states[k], chain[|chain| - 1])))).Some?
  {
    RunsKeepInv(states, events, k);
    hide Do, Inv, Forward, WaitChain, WaitsFor, PcOf;
    var chain := SomeoneMoves(states[k], t);
    ChainNonEmpty(states[k], chain);
    if |chain| > 1 { NoCircularWait(states, events, k, chain); }
  }

  lemma ChainNonEmpty(s: State, chain: seq<Tid>)
    requires WaitChain(s, chain)
    ensures |chain| > 0
  {
  }
}
