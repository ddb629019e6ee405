/** Safety and progress of the table-set cache over every run. */
module TableSetRuns {
  import opened Staging
  import opened TableSet
  import opened TableSetSafety

  // ---------------------------------------------------------------- the invariant

  /** A mutex is recorded with a thread exactly when that thread is where the code holds it. */
  ghost predicate LocksOk(s: State) {
    forall t: Tid, l: Lock :: l in Holds(PcOf(s, t)) <==> l in s.locks && s.locks[l] == t
  }

  ghost predicate ThreadsOk(s: State) { forall t: Tid :: ThreadOk(s.mem, t, PcOf(s, t)) }

  /** While a scan's snapshot is the epoch, it knows what an invalidation past its bump clears. */
  ghost predicate SeenOk(s: State) {
    forall u: Tid, v: Tid :: Knows(PcOf(s, u), PcOf(s, v), s.mem.sh.epoch)
  }

  /** A name is in `loads_in_progress_` only while the thread that took the slot is fetching it. */
  ghost predicate SlotsOk(s: State) {
    forall n :: n in s.mem.sh.loads ==> Fetches(PcOf(s, s.mem.sh.loads[n])) == Some(n)
  }

  ghost predicate Inv(s: State) { LocksOk(s) && MemOk(s.mem) && ThreadsOk(s) && SeenOk(s) && SlotsOk(s) }

  // ---------------------------------------------------------------- every step keeps it

  lemma DoIs(s: State, t: Tid, c: Choice)
    requires Do(s, t, c).Some?
    ensures var s', pc := Do(s, t, c).value, PcOf(s, t);
            var act := Step(s.mem, t, pc, c, PendingOf(s));
            act.Some? && s'.mem == act.value.mem && PcOf(s', t) == act.value.pc
            && s'.locks == Relock(s.locks, t, Holds(pc), Holds(act.value.pc))
            && (forall u: Tid :: u != t ==> PcOf(s', u) == PcOf(s, u))
            && (forall l :: l in Holds(act.value.pc) && l !in Holds(pc) ==> l !in s.locks)
            && s'.freed == s.freed + (Owned(s.mem, s.procs) - Owned(s'.mem, s'.procs))
            && s'.procs == s.procs[t := act.value.pc]
  {
    hide Step, Holds, Relock, Owned, PendingOf;
  }

  lemma RelockAt(locks: map<Lock, Tid>, t: Tid, before: set<Lock>, after: set<Lock>, l: Lock, u: Tid)
    requires l in after && l !in before ==> l !in locks
    requires l in before <==> l in locks && locks[l] == t
    ensures var locks' := Relock(locks, t, before, after);
            l in locks' && locks'[l] == u <==> if u == t then l in after else l in locks && locks[l] == u
  {
  }

  lemma LocksKept(s: State, t: Tid, c: Choice)
    requires LocksOk(s) && Do(s, t, c).Some?
    ensures LocksOk(Do(s, t, c).value)
  {
    hide Do, Step, Holds, Relock, PcOf;
    DoIs(s, t, c);
    var s' := Do(s, t, c).value;
    forall u: Tid, l: Lock ensures l in Holds(PcOf(s', u)) <==> l in s'.locks && s'.locks[l] == u {
      RelockAt(s.locks, t, Holds(PcOf(s, t)), Holds(PcOf(s', t)), l, u);
    }
  }

  lemma LocksApart(s: State, t: Tid, u: Tid)
    requires LocksOk(s) && u != t
    ensures Apart(PcOf(s, t), PcOf(s, u))
  {
    hide Holds, PcOf;
    forall l: Lock ensures !(l in Holds(PcOf(s, t)) && l in Holds(PcOf(s, u))) {
      if l in Holds(PcOf(s, t)) { assert s.locks[l] == t; }
    }
  }

  lemma ThreadsKept(s: State, t: Tid, c: Choice)
    requires Inv(s) && Do(s, t, c).Some?
    ensures var s' := Do(s, t, c).value; MemOk(s'.mem) && ThreadsOk(s')
  {
    hide Do, Step, Holds, ThreadOk, Guarantee, PcOf, PostBump, Scanning, Knows, Apart, BumpsOk, EntriesOk, ClearsOk, Present;
    DoIs(s, t, c);
    var s', pc := Do(s, t, c).value, PcOf(s, t);
    StepKeeps(s.mem, t, pc, c, PendingOf(s));
    StepGuarantees(s.mem, t, pc, c, PendingOf(s));
    forall u: Tid ensures ThreadOk(s'.mem, u, PcOf(s', u)) {
      if u != t {
        LocksApart(s, t, u);
        Stable(s.mem, t, pc, s'.mem, u, PcOf(s, u));
      }
    }
  }

  lemma SnapIsRecent(m: Mem, t: Tid, pc: Pc)
    requires ThreadOk(m, t, pc) && BumpsOk(m) && Scanning(pc)
    ensures pc.snap <= m.sh.epoch
  {
    hide NoneClearedSince, Present;
  }

  /** How a step of a scan changes what it knows. */
  lemma ScanGoesOn(m: Mem, t: Tid, pc: Pc, c: Choice, pend: Option<Scope>)
    requires ScanStep(m, t, pc, c, pend).Some? && Scanning(ScanStep(m, t, pc, c, pend).value.pc)
    ensures var pc' := ScanStep(m, t, pc, c, pend).value.pc;
            if pc.ScanSnap? then pc'.ScanLoad? && pc'.snap == m.sh.epoch && pc'.pend == pend
            else Scanning(pc) && pc'.snap == pc.snap && pc'.pend == pc.pend && (Early(pc) ==> Early(pc') || pc'.ScanEntryWant?)
  {
    hide Fill, Listed, Keep;
  }

  lemma InvalidationGoesOn(m: Mem, t: Tid, pc: Pc, c: Choice)
    requires InvalidateStep(m, t, pc, c).Some? && PostBump(InvalidateStep(m, t, pc, c).value.pc)
    ensures var pc' := InvalidateStep(m, t, pc, c).value.pc;
            if pc.InvBump? then !pc'.InvNamesClear? else PostBump(pc) && pc'.scope == pc.scope && !pc.InvNamesClear?
  {
  }

  /** Only a scan's step leads into a scan past its snapshot, only an invalidation's past its bump. */
  lemma Kinds(m: Mem, t: Tid, pc: Pc, c: Choice, pend: Option<Scope>)
    requires Step(m, t, pc, c, pend).Some?
    ensures var pc' := Step(m, t, pc, c, pend).value.pc;
            (Scanning(pc') ==> InScan(pc) && Step(m, t, pc, c, pend) == ScanStep(m, t, pc, c, pend))
            && (PostBump(pc') ==> (pc.InvBump? || PostBump(pc)) && Step(m, t, pc, c, pend) == InvalidateStep(m, t, pc, c))
  {
    hide GetStep, LoadStep, ScanStep, InvalidateStep, Scanning, PostBump, InScan, InGet, InLoad, Free;
    var a := Step(m, t, pc, c, pend).value;
    if pc.Idle? {
      BeginFree(m, t, c);
      NoScan(a.pc);
    } else if InGet(pc) {
      GetFree(m, t, pc, c);
      NoScan(a.pc);
    } else if InLoad(pc) {
      LoadGoesOn(m, t, pc, c);
    } else if InScan(pc) {
      ScanStays(m, t, pc, c, pend);
    } else {
      InvalidationStays(m, t, pc, c);
    }
  }

  lemma NoScan(pc: Pc)
    requires Free(pc) || pc.ScanSnap? || pc.InvWant?
    ensures !Scanning(pc) && !PostBump(pc)
  {
  }

  lemma LoadGoesOn(m: Mem, t: Tid, pc: Pc, c: Choice)
    requires LoadStep(m, t, pc, c).Some?
    ensures !Scanning(LoadStep(m, t, pc, c).value.pc) && !PostBump(LoadStep(m, t, pc, c).value.pc)
  {
    hide StoreLoaded;
  }

  lemma ScanStays(m: Mem, t: Tid, pc: Pc, c: Choice, pend: Option<Scope>)
    requires ScanStep(m, t, pc, c, pend).Some?
    ensures !PostBump(ScanStep(m, t, pc, c, pend).value.pc)
  {
    hide Fill, Listed, Keep;
  }

  lemma InvalidationStays(m: Mem, t: Tid, pc: Pc, c: Choice)
    requires InvalidateStep(m, t, pc, c).Some?
    ensures !Scanning(InvalidateStep(m, t, pc, c).value.pc)
    ensures PostBump(InvalidateStep(m, t, pc, c).value.pc) ==> pc.InvBump? || PostBump(pc)
  {
  }

  lemma BeginFree(m: Mem, t: Tid, c: Choice)
    requires Begin(m, t, c).Some?
    ensures var pc := Begin(m, t, c).value.pc; Free(pc) || pc.ScanSnap? || pc.InvWant?
  {
  }

  /** A snapshot sees the invalidation under way, if there is one. */
  lemma SnapshotKnows(s: State, v: Tid)
    requires LocksOk(s) && PostBump(PcOf(s, v))
    ensures PcOf(s, v).InvNamesClear? || PendingOf(s) == Some(PcOf(s, v).scope)
  {
    hide Holds, PcOf;
    LoadMutexHeld(PcOf(s, v));
    assert s.locks[LoadMutex] == v;
  }

  lemma LastClearHoldsNames(pc: Pc)
    ensures pc.InvNamesClear? ==> NamesMutex in Holds(pc)
    ensures pc.ScanEntryWant? ==> NamesMutex in Holds(pc)
    ensures Early(pc) ==> Holds(pc) <= {EntryMutex}
  {
  }

  lemma SeenGoesOn(m: Mem, t: Tid, pc: Pc, c: Choice, pend: Option<Scope>, inv: Pc)
    requires ScanStep(m, t, pc, c, pend).Some? && !pc.ScanSnap? && Knows(pc, inv, m.sh.epoch)
    requires var pc' := ScanStep(m, t, pc, c, pend).value.pc;
             NamesMutex in Holds(pc') && NamesMutex !in Holds(pc) ==> NamesMutex !in Holds(inv)
    ensures Knows(ScanStep(m, t, pc, c, pend).value.pc, inv, m.sh.epoch)
  {
    hide Holds, ScanStep, Early, InScan;
    var pc' := ScanStep(m, t, pc, c, pend).value.pc;
    if Scanning(pc') {
      ScanGoesOn(m, t, pc, c, pend);
      LastClearHoldsNames(pc);
      LastClearHoldsNames(inv);
      LastClearHoldsNames(pc');
    }
  }

  lemma SeenAtSnapshot(m: Mem, t: Tid, c: Choice, pend: Option<Scope>, inv: Pc)
    requires ScanStep(m, t, ScanSnap, c, pend).Some? && (PostBump(inv) ==> inv.InvNamesClear? || pend == Some(inv.scope))
    ensures Knows(ScanStep(m, t, ScanSnap, c, pend).value.pc, inv, m.sh.epoch)
  {
  }

  lemma NoScanKnows(pc: Pc, inv: Pc, e: nat)
    requires !Scanning(pc)
    ensures Knows(pc, inv, e)
  {
  }

  lemma SeenByMover(s: State, t: Tid, c: Choice, v: Tid)
    requires Inv(s) && Do(s, t, c).Some? && v != t
    ensures Knows(PcOf(Do(s, t, c).value, t), PcOf(s, v), Do(s, t, c).value.mem.sh.epoch)
  {
    hide Do, Step, Holds, ThreadOk, PcOf, BumpsOk, EntriesOk, ClearsOk, Present, ScanStep, Scanning, PostBump, Knows, PendingOf, InScan;
    DoIs(s, t, c);
    var s', pc, pend := Do(s, t, c).value, PcOf(s, t), PendingOf(s);
    var pc', inv := PcOf(s', t), PcOf(s, v);
    if Scanning(pc') {
      Kinds(s.mem, t, pc, c, pend);
      ScanIsNoBump(pc);
      StepGuarantees(s.mem, t, pc, c, pend);
      if pc.ScanSnap? {
        if PostBump(inv) { SnapshotKnows(s, v); }
        SeenAtSnapshot(s.mem, t, c, pend, inv);
      } else {
        assert Knows(pc, inv, s.mem.sh.epoch);
        SeenGoesOn(s.mem, t, pc, c, pend, inv);
      }
    } else {
      NoScanKnows(pc', inv, s'.mem.sh.epoch);
    }
  }

  lemma ScanIsNoBump(pc: Pc)
    requires InScan(pc)
    ensures !pc.InvBump?
  {
  }

  lemma SeenOfMover(s: State, t: Tid, c: Choice, u: Tid)
    requires Inv(s) && Do(s, t, c).Some? && u != t
    ensures Knows(PcOf(s, u), PcOf(Do(s, t, c).value, t), Do(s, t, c).value.mem.sh.epoch)
  {
    hide Do, Step, Holds, ThreadOk, PcOf, BumpsOk, EntriesOk, ClearsOk, Present, InvalidateStep, Early;
    DoIs(s, t, c);
    var s', pc, pend := Do(s, t, c).value, PcOf(s, t), PendingOf(s);
    if Scanning(PcOf(s, u)) && PostBump(PcOf(s', t)) && PcOf(s, u).snap == s'.mem.sh.epoch {
      Kinds(s.mem, t, pc, c, pend);
      InvalidationGoesOn(s.mem, t, pc, c);
      StepGuarantees(s.mem, t, pc, c, pend);
      SnapIsRecent(s.mem, u, PcOf(s, u));
      assert Knows(PcOf(s, u), pc, s.mem.sh.epoch);
    }
  }

  lemma SeenOfOthers(m: Mem, u: Tid, scan: Pc, inv: Pc, e: nat)
    requires ThreadOk(m, u, scan) && BumpsOk(m) && Knows(scan, inv, m.sh.epoch)
    requires e == m.sh.epoch || e == m.sh.epoch + 1
    ensures Knows(scan, inv, e)
  {
    hide ThreadOk, BumpsOk, PostBump;
    if Scanning(scan) { SnapIsRecent(m, u, scan); }
  }

  /** A thread is not both a scan and an invalidation. */
  lemma OneAtATime(pc: Pc, e: nat)
    ensures Knows(pc, pc, e)
  {
  }

  lemma SeenKept(s: State, t: Tid, c: Choice)
    requires Inv(s) && Do(s, t, c).Some?
    ensures SeenOk(Do(s, t, c).value)
  {
    hide Do, Step, Holds, ThreadOk, PcOf, BumpsOk, EntriesOk, ClearsOk, Present, Scanning, PostBump, Knows;
    DoIs(s, t, c);
    var s' := Do(s, t, c).value;
    StepGuarantees(s.mem, t, PcOf(s, t), c, PendingOf(s));
    forall u: Tid, v: Tid ensures Knows(PcOf(s', u), PcOf(s', v), s'.mem.sh.epoch) {
      if u == v {
        OneAtATime(PcOf(s', u), s'.mem.sh.epoch);
      } else if u == t {
        SeenByMover(s, t, c, v);
      } else if v == t {
        SeenOfMover(s, t, c, u);
      } else {
        assert Knows(PcOf(s, u), PcOf(s, v), s.mem.sh.epoch);
        SeenOfOthers(s.mem, u, PcOf(s, u), PcOf(s, v), s'.mem.sh.epoch);
      }
    }
  }

  lemma SlotsLoad(m: Mem, t: Tid, pc: Pc, c: Choice, n: Name)
    requires LoadStep(m, t, pc, c).Some?
    requires n in m.sh.loads && m.sh.loads[n] == t ==> Fetches(pc) == Some(n)
    ensures var a := LoadStep(m, t, pc, c).value;
            n in a.mem.sh.loads ==>
              if a.mem.sh.loads[n] == t then Fetches(a.pc) == Some(n) else n in m.sh.loads && m.sh.loads[n] == a.mem.sh.loads[n]
  {
    hide StoreLoaded, TakeSlot;
    if pc.LoadEnter? { SlotTaken(m.sh, pc.n, t); }
    if pc.LoadStore? { SlotGivenBack(m.sh, pc.n, pc.got, pc.failed, pc.clean); }
  }

  lemma SlotTaken(sh: Shared, n: Name, t: Tid)
    ensures TakeSlot(sh, n, t).loads == sh.loads[n := t]
  {
  }

  lemma SlotGivenBack(sh: Shared, n: Name, got: Option<Entry>, failed: bool, clean: bool)
    ensures StoreLoaded(sh, n, got, failed, clean).loads == sh.loads - {n}
  {
    hide Emplace;
  }

  lemma SlotsScan(m: Mem, t: Tid, pc: Pc, c: Choice, pend: Option<Scope>)
    requires InScan(pc) && ScanStep(m, t, pc, c, pend).Some?
    ensures ScanStep(m, t, pc, c, pend).value.mem.sh.loads == m.sh.loads && Fetches(pc) == None
  {
    hide Built, Listed;
  }

  lemma SlotsInvalidate(m: Mem, t: Tid, pc: Pc, c: Choice)
    requires InvalidateStep(m, t, pc, c).Some?
    ensures InvalidateStep(m, t, pc, c).value.mem.sh.loads == m.sh.loads && Fetches(pc) == None
  {
  }

  lemma SlotsStep(m: Mem, t: Tid, pc: Pc, c: Choice, pend: Option<Scope>, n: Name)
    requires Step(m, t, pc, c, pend).Some?
    requires n in m.sh.loads && m.sh.loads[n] == t ==> Fetches(pc) == Some(n)
    ensures var a := Step(m, t, pc, c, pend).value;
            n in a.mem.sh.loads ==>
              if a.mem.sh.loads[n] == t then Fetches(a.pc) == Some(n) else n in m.sh.loads && m.sh.loads[n] == a.mem.sh.loads[n]
  {
    hide GetStep, LoadStep, ScanStep, InvalidateStep, Fetches;
    var a := Step(m, t, pc, c, pend).value;
    if pc.Idle? {
      NoSlot(pc);
    } else if InGet(pc) {
      GetSameTables(m, t, pc, c);
      NoSlot(pc);
    } else if InLoad(pc) {
      SlotsLoad(m, t, pc, c, n);
    } else if InScan(pc) {
      SlotsScan(m, t, pc, c, pend);
    } else {
      SlotsInvalidate(m, t, pc, c);
    }
  }

  lemma NoSlot(pc: Pc)
    requires pc.Idle? || InGet(pc)
    ensures Fetches(pc) == None
  {
  }

  lemma SlotsKept(s: State, t: Tid, c: Choice)
    requires SlotsOk(s) && Do(s, t, c).Some?
    ensures SlotsOk(Do(s, t, c).value)
  {
    hide Do, Step, Holds, Fetches, PcOf;
    DoIs(s, t, c);
    var s' := Do(s, t, c).value;
    forall n | n in s'.mem.sh.loads ensures Fetches(PcOf(s', s'.mem.sh.loads[n])) == Some(n) {
      SlotsStep(s.mem, t, PcOf(s, t), c, PendingOf(s), n);
    }
  }

  lemma StepKeepsInv(s: State, t: Tid, c: Choice)
    requires Inv(s) && Do(s, t, c).Some?
    ensures Inv(Do(s, t, c).value)
  {
    hide LocksOk, ThreadsOk, MemOk, SeenOk, SlotsOk, Do;
    LocksKept(s, t, c);
    ThreadsKept(s, t, c);
    SeenKept(s, t, c);
    SlotsKept(s, t, c);
  }

  lemma TickKeepsMem(m: Mem)
    requires MemOk(m)
    ensures MemOk(m.(clock := m.clock + 1))
  {
    hide Cleared;
    var m' := m.(clock := m.clock + 1);
    forall n | n in m'.sh.entries ensures EntryOk(m', n, m'.sh.entries[n]) {
      SameCleared(m, m', n);
      assert EntryOk(m, n, m.sh.entries[n]);
    }
  }

  lemma TickKeepsThread(m: Mem, t: Tid, pc: Pc)
    requires ThreadOk(m, t, pc) && BumpsOk(m)
    ensures ThreadOk(m.(clock := m.clock + 1), t, pc)
  {
    hide ThreadOk, NoneClearedSince, Cleared;
    var other := t + 1;
    var m' := m.(clock := m.clock + 1);
    assert Guarantee(m, other, Idle, m');
    IdleHoldsNothing(pc);
    Stable(m, other, Idle, m', t, pc);
  }

  lemma IdleHoldsNothing(pc: Pc)
    ensures Apart(Idle, pc) && !PostBump(Idle)
  {
  }

  lemma TickKeepsInv(s: State)
    requires Inv(s)
    ensures Inv(Apply(s, Tick).value)
  {
    hide ThreadOk, EntriesOk, ClearsOk, BumpsOk, Present, Holds, Fetches, Knows, PostBump, Scanning;
    var s' := Apply(s, Tick).value;
    TickKeepsMem(s.mem);
    forall t: Tid ensures ThreadOk(s'.mem, t, PcOf(s', t)) {
      TickKeepsThread(s.mem, t, PcOf(s, t));
    }
    assert forall t: Tid :: PcOf(s', t) == PcOf(s, t);
  }

  lemma InitInv()
    ensures Inv(Init)
  {
  }

  /** Every state of every run meets the invariant. */
  lemma {:induction false} RunsKeepInv(states: seq<State>, events: seq<Event>, k: nat)
    requires Run(states, events) && k < |states|
    ensures Inv(states[k])
  {
    hide Inv, Do;
    if k == 0 {
      InitInv();
    } else {
      RunsKeepInv(states, events, k - 1);
      assert Apply(states[k - 1], events[k - 1]) == Some(states[k]);
      if events[k - 1].Tick? {
        TickKeepsInv(states[k - 1]);
      } else {
        StepKeepsInv(states[k - 1], events[k - 1].t, events[k - 1].c);
      }
    }
  }

  // ---------------------------------------------------------------- what the invariant says

  /** Every cached entry was loaded under an epoch at least that of every invalidation of its name that has
      cleared, and read from the server no earlier than those invalidations moved the epoch. */
  lemma EntriesAreFresh(states: seq<State>, events: seq<Event>, k: nat, n: Name)
    requires Run(states, events) && k < |states| && n in states[k].mem.sh.entries
    ensures var m, e := states[k].mem, states[k].mem.sh.entries[n];
            e.name == n && Cleared(m, n) <= e.snap <= m.sh.epoch < |m.bumpClock|
            && m.bumpClock[Cleared(m, n)] <= e.readAt <= m.clock
  {
    RunsKeepInv(states, events, k);
    var m := states[k].mem;
    hide Cleared, LocksOk, ThreadsOk, SeenOk, SlotsOk, Run;
    assert EntryOk(m, n, m.sh.entries[n]);
  }

  /** `loads_in_progress_` is exactly the set of names being fetched, and one thread fetches each. */
  lemma SingleFlight(states: seq<State>, events: seq<Event>, k: nat, n: Name)
    requires Run(states, events) && k < |states|
    ensures n in states[k].mem.sh.loads <==> exists t: Tid :: Fetches(PcOf(states[k], t)) == Some(n)
    ensures forall t: Tid, u: Tid ::
              Fetches(PcOf(states[k], t)) == Some(n) && Fetches(PcOf(states[k], u)) == Some(n) ==> t == u
  {
    RunsKeepInv(states, events, k);
    var s := states[k];
    hide LocksOk, MemOk, SeenOk, Run, ThreadOk, Fetches, PcOf;
    forall t: Tid | Fetches(PcOf(s, t)) == Some(n) ensures Owns(s.mem, n, t) {
      FetcherOwns(s.mem, t, PcOf(s, t), n);
    }
  }

  lemma FetcherOwns(m: Mem, t: Tid, pc: Pc, n: Name)
    requires ThreadOk(m, t, pc) && Fetches(pc) == Some(n)
    ensures Owns(m, n, t)
  {
    hide FetchOk, Since, Cleared;
  }
}
