/** Driving the table-set cache from one state to another: runs from any state on, letting the other threads give back
    the short-lived mutexes, and then moving two threads only. */
module TableSetSteering {
  import opened Staging
  import opened TableSet
  import opened TableSetSafety
  import opened TableSetRuns
  import opened TableSetProgress

  // ---------------------------------------------------------------- runs from any state

  ghost predicate Path(states: seq<State>, events: seq<Event>) {
    |states| == |events| + 1 && forall k :: 0 <= k < |events| ==> Apply(states[k], events[k]) == Some(states[k + 1])
  }

  ghost predicate Leads(s: State, s': State) {
    exists states: seq<State>, events: seq<Event> :: Path(states, events) && states[0] == s && states[|events|] == s'
  }

  lemma LeadsNowhere(s: State)
    ensures Leads(s, s)
  {
    var events: seq<Event> := [];
    assert Path([s], events) && [s][0] == s && [s][|events|] == s;
  }

  lemma LeadsOn(s: State, x: State, ev: Event, y: State)
    requires Leads(s, x) && Apply(x, ev) == Some(y)
    ensures Leads(s, y)
  {
    hide Apply;
    var states, events :| Path(states, events) && states[0] == s && states[|events|] == x;
    assert Path(states + [y], events + [ev]);
    assert (states + [y])[0] == s && (states + [y])[|events + [ev]|] == y;
  }

  /** A path from the start is a run. */
  lemma RunOf(s: State) returns (states: seq<State>, events: seq<Event>)
    requires Leads(Init, s)
    ensures Run(states, events) && states[|events|] == s
  {
    hide Apply;
    states, events :| Path(states, events) && states[0] == Init && states[|events|] == s;
  }

  lemma ReachableInv(s: State)
    requires Leads(Init, s)
    ensures Inv(s)
  {
    var states, events := RunOf(s);
    RunsKeepInv(states, events, |events|);
  }

  lemma CanMove(s: State, t: Tid, c: Choice)
    requires Step(s.mem, t, PcOf(s, t), c, PendingOf(s)).Some?
    requires forall l :: l in Holds(Step(s.mem, t, PcOf(s, t), c, PendingOf(s)).value.pc) && l !in Holds(PcOf(s, t)) ==> l !in s.locks
    ensures Do(s, t, c).Some?
  {
    hide Step, Holds, PcOf, PendingOf, Owned, Relock;
  }

  // ---------------------------------------------------------------- the other threads give their mutexes back

  /** How many steps a thread that holds `names_mutex_` or `entry_mutex_`, and not `load_mutex_`, takes to give them
      back. */
  function Debt(pc: Pc): nat {
    match pc
    case LoadPublish(_, _, _, _) => 2
    case ScanEntryWant(_, _, _, _) => 3
    case ScanEpoch(_, _, _, _) => 2
    case NamesLook(_) => 3
    case NamesNegWant(_) => 2
    case _ => 1
  }

  predicate HoldsShort(pc: Pc) { (NamesMutex in Holds(pc) || EntryMutex in Holds(pc)) && LoadMutex !in Holds(pc) }

  /** What such a step leads to. */
  ghost predicate GivesBack(pc: Pc, pc': Pc) {
    && Holds(pc') <= Holds(pc) + {EntryMutex} && (EntryMutex in Holds(pc) ==> Holds(pc') <= Holds(pc))
    && (Holds(pc') != {} ==> Debt(pc') < Debt(pc) && HoldsShort(pc'))
    && (NamesMutex in Holds(pc) ==> Holds(pc') == {} || NamesMutex in Holds(pc'))
  }

  lemma GivesBackGet(m: Mem, t: Tid, pc: Pc)
    requires InGet(pc) && HoldsShort(pc)
    ensures GetStep(m, t, pc, Go).Some? && GivesBack(pc, GetStep(m, t, pc, Go).value.pc)
  {
    hide Keep;
  }

  lemma GivesBackLoad(m: Mem, t: Tid, pc: Pc)
    requires InLoad(pc) && HoldsShort(pc)
    ensures LoadStep(m, t, pc, Go).Some? && GivesBack(pc, LoadStep(m, t, pc, Go).value.pc)
  {
    hide StoreLoaded;
  }

  lemma GivesBackScan(m: Mem, t: Tid, pc: Pc, pend: Option<Scope>)
    requires InScan(pc) && HoldsShort(pc)
    ensures ScanStep(m, t, pc, Go, pend).Some? && GivesBack(pc, ScanStep(m, t, pc, Go, pend).value.pc)
  {
    hide Fill, Listed, Keep;
  }

  lemma ShortIsNoInvalidation(pc: Pc)
    requires HoldsShort(pc)
    ensures !pc.Idle? && (InGet(pc) || InLoad(pc) || InScan(pc)) && !pc.InvBump? && !PostBump(pc)
  {
  }

  lemma GivesBackStep(m: Mem, t: Tid, pc: Pc, pend: Option<Scope>)
    requires HoldsShort(pc)
    ensures Step(m, t, pc, Go, pend).Some? && GivesBack(pc, Step(m, t, pc, Go, pend).value.pc)
  {
    ShortIsNoInvalidation(pc);
    hide GetStep, LoadStep, ScanStep, InvalidateStep, GivesBack, HoldsShort;
    if InGet(pc) {
      GivesBackGet(m, t, pc);
    } else if InLoad(pc) {
      GivesBackLoad(m, t, pc);
    } else {
      GivesBackScan(m, t, pc, pend);
    }
  }

  /** A scan that holds nothing and an invalidation that holds `load_mutex_` only, wherever the others are. */
  ghost predicate Waiting(s0: State, s: State, t: Tid, u: Tid, p: Pc, q: Pc) {
    Leads(s0, s) && Inv(s) && t != u && PcOf(s, t) == p && PcOf(s, u) == q && Holds(p) == {} && Holds(q) == {LoadMutex}
  }

  /** One step of another thread `w` that holds a short-lived mutex. */
  lemma OtherMoves(s0: State, s: State, t: Tid, u: Tid, p: Pc, q: Pc, w: Tid) returns (s': State)
    requires Waiting(s0, s, t, u, p, q) && w != t && w != u && HoldsShort(PcOf(s, w))
    requires EntryMutex in Holds(PcOf(s, w)) || EntryMutex !in s.locks
    ensures Waiting(s0, s', t, u, p, q) && s'.mem.sh.epoch == s.mem.sh.epoch
    ensures GivesBack(PcOf(s, w), PcOf(s', w)) && forall v: Tid :: v != w ==> PcOf(s', v) == PcOf(s, v)
  {
    var pc, pend := PcOf(s, w), PendingOf(s);
    ShortIsNoInvalidation(pc);
    GivesBackStep(s.mem, w, pc, pend);
    MovesUnblocked(s, w);
    hide Do, Step, Inv, Leads, Holds, GivesBack, HoldsShort, PcOf, PendingOf, ThreadOk;
    s' := Do(s, w, Go).value;
    DoIs(s, w, Go);
    StepKeepsInv(s, w, Go);
    LeadsOn(s0, s, By(w, Go), s');
    assert ThreadOk(s.mem, w, pc) by { ThreadOf(s, w); }
    StepGuarantees(s.mem, w, pc, Go, pend);
  }

  lemma ThreadOf(s: State, t: Tid)
    requires Inv(s)
    ensures ThreadOk(s.mem, t, PcOf(s, t))
  {
    hide ThreadOk, PcOf;
  }

  lemma MovesUnblocked(s: State, w: Tid)
    requires HoldsShort(PcOf(s, w)) && (EntryMutex in Holds(PcOf(s, w)) || EntryMutex !in s.locks)
    ensures Do(s, w, Go).Some?
  {
    hide Step, Holds, PcOf, PendingOf, Do, HoldsShort;
    GivesBackStep(s.mem, w, PcOf(s, w), PendingOf(s));
    CanMove(s, w, Go);
  }

  lemma HolderIs(s: State, l: Lock, w: Tid)
    requires Inv(s)
    ensures l in Holds(PcOf(s, w)) <==> l in s.locks && s.locks[l] == w
  {
    hide Holds, PcOf;
  }

  lemma ShortHolder(s0: State, s: State, t: Tid, u: Tid, p: Pc, q: Pc, l: Lock)
    requires Waiting(s0, s, t, u, p, q) && l in s.locks && l != LoadMutex
    ensures var w := s.locks[l]; w != t && w != u && HoldsShort(PcOf(s, w)) && l in Holds(PcOf(s, w))
  {
    hide Holds, PcOf, Inv, Leads;
    HolderIs(s, l, s.locks[l]);
    HolderIs(s, LoadMutex, s.locks[l]);
    HolderIs(s, LoadMutex, u);
  }

  lemma {:induction false} FreeEntryMutex(s0: State, s: State, t: Tid, u: Tid, p: Pc, q: Pc) returns (s': State)
    requires Waiting(s0, s, t, u, p, q)
    ensures Waiting(s0, s', t, u, p, q) && s'.mem.sh.epoch == s.mem.sh.epoch && EntryMutex !in s'.locks
    decreases if EntryMutex in s.locks then 1 + Debt(PcOf(s, s.locks[EntryMutex])) else 0
  {
    hide Holds, PcOf, Inv, Leads, Debt, HoldsShort;
    if EntryMutex !in s.locks { return s; }
    var w := s.locks[EntryMutex];
    ShortHolder(s0, s, t, u, p, q, EntryMutex);
    s' := OtherMoves(s0, s, t, u, p, q, w);
    if EntryMutex in s'.locks {
      HolderIs(s', EntryMutex, s'.locks[EntryMutex]);
      HolderIs(s, EntryMutex, s'.locks[EntryMutex]);
    }
    s' := FreeEntryMutex(s0, s', t, u, p, q);
  }

  /** `entry_mutex_` is free, or with the thread that holds `names_mutex_`. */
  ghost predicate EntryWithNames(s: State) {
    EntryMutex in s.locks ==> NamesMutex in s.locks && s.locks[EntryMutex] == s.locks[NamesMutex]
  }

  lemma {:induction false} FreeNamesMutex(s0: State, s: State, t: Tid, u: Tid, p: Pc, q: Pc) returns (s': State)
    requires Waiting(s0, s, t, u, p, q) && EntryWithNames(s)
    ensures Waiting(s0, s', t, u, p, q) && s'.mem.sh.epoch == s.mem.sh.epoch
    ensures NamesMutex !in s'.locks && EntryMutex !in s'.locks
    decreases if NamesMutex in s.locks then 1 + Debt(PcOf(s, s.locks[NamesMutex])) else 0
  {
    hide Holds, PcOf, Inv, Leads, Debt, HoldsShort;
    if NamesMutex !in s.locks { return s; }
    var w := s.locks[NamesMutex];
    ShortHolder(s0, s, t, u, p, q, NamesMutex);
    HolderIs(s, EntryMutex, w);
    s' := OtherMoves(s0, s, t, u, p, q, w);
    if NamesMutex in s'.locks {
      HolderIs(s', NamesMutex, s'.locks[NamesMutex]);
      HolderIs(s, NamesMutex, s'.locks[NamesMutex]);
    }
    if EntryMutex in s'.locks {
      HolderIs(s', EntryMutex, s'.locks[EntryMutex]);
      HolderIs(s, EntryMutex, s'.locks[EntryMutex]);
      HolderIs(s', NamesMutex, w);
    }
    s' := FreeNamesMutex(s0, s', t, u, p, q);
  }

  /** Nobody but `u` holds a mutex. */
  ghost predicate Quiet(s: State, u: Tid) { forall w: Tid :: w != u ==> Holds(PcOf(s, w)) == {} }

  /** The others can always be let go on until they hold nothing, whatever state the run is in. */
  lemma Settle(s0: State, s: State, t: Tid, u: Tid, p: Pc, q: Pc) returns (s': State)
    requires Waiting(s0, s, t, u, p, q)
    ensures Waiting(s0, s', t, u, p, q) && s'.mem.sh.epoch == s.mem.sh.epoch && Quiet(s', u)
  {
    hide Holds, PcOf, Inv, Leads;
    s' := FreeEntryMutex(s0, s, t, u, p, q);
    s' := FreeNamesMutex(s0, s', t, u, p, q);
    forall w: Tid | w != u ensures Holds(PcOf(s', w)) == {} {
      forall l: Lock ensures l !in Holds(PcOf(s', w)) {
        HolderIs(s', l, w);
        HolderIs(s', LoadMutex, u);
        match l
        case LoadMutex =>
        case NamesMutex =>
        case EntryMutex =>
      }
    }
  }

  // ---------------------------------------------------------------- two threads on a stage

  /** Where a path starts, the state whose other threads stay where they are, and the two that move. */
  datatype Scene = Scene(start: State, still: State, t: Tid, u: Tid)

  ghost predicate SceneOk(x: Scene) {
    x.t != x.u && forall w: Tid :: w != x.t && w != x.u ==> Holds(PcOf(x.still, w)) == {}
  }

  ghost predicate At(x: Scene, s: State, m: Mem, p: Pc, q: Pc) {
    s.mem == m && PcOf(s, x.t) == p && PcOf(s, x.u) == q && LocksOk(s)
    && forall w: Tid :: w != x.t && w != x.u ==> PcOf(s, w) == PcOf(x.still, w)
  }

  ghost predicate Stage(x: Scene, m: Mem, p: Pc, q: Pc) { exists s: State :: Leads(x.start, s) && At(x, s, m, p, q) }

  lemma LockHolder(x: Scene, s: State, m: Mem, p: Pc, q: Pc, l: Lock)
    requires SceneOk(x) && At(x, s, m, p, q)
    ensures l in s.locks <==> l in Holds(p) || l in Holds(q)
  {
    hide Holds, PcOf;
    assert l in Holds(PcOf(s, x.t)) <==> l in s.locks && s.locks[l] == x.t;
    assert l in Holds(PcOf(s, x.u)) <==> l in s.locks && s.locks[l] == x.u;
    if l in s.locks { assert l in Holds(PcOf(s, s.locks[l])); }
  }

  /** Only a snapshot looks at the invalidation under way. */
  lemma SnapshotOnly(m: Mem, t: Tid, pc: Pc, c: Choice, a: Option<Scope>, b: Option<Scope>)
    requires !pc.ScanSnap?
    ensures Step(m, t, pc, c, a) == Step(m, t, pc, c, b)
  {
    hide GetStep, LoadStep, InvalidateStep, Fill, Listed, Keep;
  }

  lemma Advance(x: Scene, s: State, m: Mem, p: Pc, q: Pc, w: Tid, c: Choice, act: Act, p': Pc, q': Pc)
    requires SceneOk(x) && Leads(x.start, s) && At(x, s, m, p, q) && (w == x.t || w == x.u)
    requires act.pc == (if w == x.t then p' else q') && (if w == x.t then q' == q else p' == p)
    requires var pc := if w == x.t then p else q; !pc.ScanSnap? && Step(m, w, pc, c, None) == Some(act)
    requires Holds(p') !! Holds(q')
    ensures Stage(x, act.mem, p', q')
  {
    hide Step, Holds, Leads, PcOf, LocksOk, Do, PendingOf;
    forall l: Lock ensures l in s.locks <==> l in Holds(p) || l in Holds(q) { LockHolder(x, s, m, p, q, l); }
    SnapshotOnly(m, w, PcOf(s, w), c, None, PendingOf(s));
    CanMove(s, w, c);
    var s' := Do(s, w, c).value;
    DoIs(s, w, c);
    LocksKept(s, w, c);
    LeadsOn(x.start, s, By(w, c), s');
    assert At(x, s', act.mem, p', q');
  }

  lemma ScanMoves(x: Scene, m: Mem, p: Pc, q: Pc, c: Choice, m': Mem, p': Pc)
    requires SceneOk(x) && Stage(x, m, p, q) && Holds(p') !! Holds(q) && !p.ScanSnap?
    requires Step(m, x.t, p, c, None) == Some(Act(p', m'))
    ensures Stage(x, m', p', q)
  {
    hide Step, Holds, Leads, At, SceneOk;
    var s :| Leads(x.start, s) && At(x, s, m, p, q);
    Advance(x, s, m, p, q, x.t, c, Act(p', m'), p', q);
  }

  lemma InvalidationMoves(x: Scene, m: Mem, p: Pc, q: Pc, c: Choice, m': Mem, q': Pc)
    requires SceneOk(x) && Stage(x, m, p, q) && Holds(p) !! Holds(q') && !q.ScanSnap?
    requires Step(m, x.u, q, c, None) == Some(Act(q', m'))
    ensures Stage(x, m', p, q')
  {
    hide Step, Holds, Leads, At;
    var s :| Leads(x.start, s) && At(x, s, m, p, q);
    Advance(x, s, m, p, q, x.u, c, Act(q', m'), p, q');
  }

  lemma Enter(s0: State, s: State, t: Tid, u: Tid, p: Pc, q: Pc)
    requires Waiting(s0, s, t, u, p, q) && Quiet(s, u)
    ensures SceneOk(Scene(s0, s, t, u)) && Stage(Scene(s0, s, t, u), s.mem, p, q)
  {
    hide Holds, PcOf, Leads, MemOk, ThreadsOk, SeenOk, SlotsOk;
    assert At(Scene(s0, s, t, u), s, s.mem, p, q);
  }
}
