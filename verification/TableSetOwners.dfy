/** Lifetimes in the table-set cache. An entry lives while the cache, a shared pointer on some thread's stack, or some
    context's anchors own it; raw pointers own nothing (src/catalog/mssql_table_set.cpp:38-62, 113-121, 198-254,
    376-416, src/catalog/mssql_bind_anchors.cpp:10-32). */
module TableSetOwners {
  import opened Staging
  import opened TableSet
  import opened TableSetSafety
  import opened TableSetRuns

  // ---------------------------------------------------------------- owners

  ghost predicate Cached(m: Mem, e: Entry) { exists n :: n in m.sh.entries && m.sh.entries[n] == e }

  /** The owners, spelt out. */
  lemma OwnedIs(m: Mem, procs: map<Tid, Pc>, e: Entry)
    ensures e in Owned(m, procs) <==>
            Cached(m, e) || (exists t: Tid :: t in procs && e in Refs(procs[t])) || (exists t: Tid :: e in AnchorsOf(m, t))
  {
    hide Refs;
    if t: Tid :| e in AnchorsOf(m, t) { assert t in m.anchors && e in m.anchors[t]; }
    if t: Tid :| t in m.anchors && e in m.anchors[t] { assert e in AnchorsOf(m, t); }
  }

  /** Entries are numbered as they are built, those freed are not owned, and a pointer about to be handed out is
      anchored in its own context. */
  ghost predicate LiveInv(s: State) {
    && (forall e :: e in Owned(s.mem, s.procs) ==> e.gen < s.mem.gen && e !in s.freed)
    && (forall e :: e in s.freed ==> e.gen < s.mem.gen)
    && (forall t: Tid :: HandsOut(PcOf(s, t)).Some? ==> HandsOut(PcOf(s, t)).value in AnchorsOf(s.mem, t))
  }

  // ---------------------------------------------------------------- what a step can make an owner of

  /** The entries a thread can reach by shared pointers: its own and the cache's. */
  ghost predicate Reaches(m: Mem, pc: Pc, e: Entry) { Cached(m, e) || e in Refs(pc) }

  /** A step makes the cache, its stack and its anchors own only what they or the cache owned, or an entry it built,
      and only the end of a query lets go of its anchors. */
  ghost predicate OwnsOnly(m: Mem, t: Tid, pc: Pc, c: Choice, act: Act) {
    && m.gen <= act.mem.gen
    && (forall e :: Cached(act.mem, e) || e in Refs(act.pc) ==> Reaches(m, pc, e) || m.gen == e.gen < act.mem.gen)
    && (forall e :: e in AnchorsOf(act.mem, t) ==> e in AnchorsOf(m, t) || Reaches(m, pc, e))
    && (forall u: Tid :: u != t ==> AnchorsOf(act.mem, u) == AnchorsOf(m, u))
    && (!c.QueryEnd? ==> AnchorsOf(m, t) <= AnchorsOf(act.mem, t))
    && (HandsOut(act.pc).Some? ==> HandsOut(act.pc).value in AnchorsOf(act.mem, t))
  }

  lemma OwnsBegin(m: Mem, t: Tid, c: Choice)
    requires Begin(m, t, c).Some?
    ensures OwnsOnly(m, t, Idle, c, Begin(m, t, c).value)
  {
  }

  lemma CachedAt(m: Mem, n: Name)
    requires n in m.sh.entries
    ensures Cached(m, m.sh.entries[n])
  {
  }

  lemma SameCache(m: Mem, m': Mem)
    requires m'.sh.entries == m.sh.entries
    ensures forall e :: Cached(m', e) <==> Cached(m, e)
  {
  }

  /** A step that moves its owners along, or drops them. */
  lemma OwnsAlong(m: Mem, t: Tid, pc: Pc, c: Choice, act: Act)
    requires act.mem.sh.entries == m.sh.entries && act.mem.anchors == m.anchors && act.mem.gen == m.gen
    requires Refs(act.pc) <= Refs(pc) && HandsOut(act.pc) == None
    ensures OwnsOnly(m, t, pc, c, act)
  {
    hide Cached, Refs;
    SameCache(m, act.mem);
  }

  lemma OwnsLook(m: Mem, t: Tid, pc: Pc, c: Choice)
    requires (pc.GetLook? || pc.Relook? || pc.Anchor?) && GetStep(m, t, pc, c).Some?
    ensures OwnsOnly(m, t, pc, c, GetStep(m, t, pc, c).value)
  {
    hide Cached;
    SameCache(m, GetStep(m, t, pc, c).value.mem);
    if !pc.Anchor? && pc.n in m.sh.entries { CachedAt(m, pc.n); }
  }

  lemma OwnsGet(m: Mem, t: Tid, pc: Pc, c: Choice)
    requires InGet(pc) && GetStep(m, t, pc, c).Some?
    ensures OwnsOnly(m, t, pc, c, GetStep(m, t, pc, c).value)
  {
    hide OwnsOnly;
    if pc.GetLook? || pc.Relook? || pc.Anchor? {
      OwnsLook(m, t, pc, c);
    } else {
      OwnsAlong(m, t, pc, c, GetStep(m, t, pc, c).value);
    }
  }

  lemma OwnsLoadStore(m: Mem, t: Tid, pc: Pc, c: Choice)
    requires pc.LoadStore?
    ensures OwnsOnly(m, t, pc, c, LoadStep(m, t, pc, c).value)
  {
    var act := LoadStep(m, t, pc, c).value;
    forall e | Cached(act.mem, e) ensures Reaches(m, pc, e) {
      var n :| n in act.mem.sh.entries && act.mem.sh.entries[n] == e;
      if n in m.sh.entries { assert m.sh.entries[n] == e; }
    }
  }

  lemma OwnsFetched(m: Mem, t: Tid, pc: Pc, c: Choice)
    requires pc.LoadFetch? && LoadStep(m, t, pc, c).Some?
    ensures OwnsOnly(m, t, pc, c, LoadStep(m, t, pc, c).value)
  {
    hide Cached;
    SameCache(m, LoadStep(m, t, pc, c).value.mem);
  }

  lemma OwnsLoad(m: Mem, t: Tid, pc: Pc, c: Choice)
    requires InLoad(pc) && LoadStep(m, t, pc, c).Some?
    ensures OwnsOnly(m, t, pc, c, LoadStep(m, t, pc, c).value)
  {
    hide OwnsOnly, StoreLoaded;
    if pc.LoadStore? {
      OwnsLoadStore(m, t, pc, c);
    } else if pc.LoadFetch? {
      OwnsFetched(m, t, pc, c);
    } else {
      OwnsAlong(m, t, pc, c, LoadStep(m, t, pc, c).value);
    }
  }

  /** Pass C's containers and listing hold cached entries and ones just built. */
  lemma FillOwns(m: Mem, listing: map<Name, nat>, have: set<Name>, snap: nat, clean: bool, e: Entry)
    requires var m' := m.(sh := Fill(m.sh, listing, have, snap, m.gen, clean));
             Cached(m', e) || e in Listed(m.sh, listing, have, snap, m.gen, clean)
    ensures Cached(m, e) || e.gen == m.gen
  {
    var sh := Fill(m.sh, listing, have, snap, m.gen, clean);
    var built := Built(listing, have, snap, m.gen);
    var n :| (n in sh.entries && sh.entries[n] == e) || (n in built && built[n] == e);
    if n in m.sh.entries { assert Cached(m, m.sh.entries[n]); }
  }

  lemma OwnsFill(m: Mem, t: Tid, pc: Pc, c: Choice, pend: Option<Scope>)
    requires pc.ScanFill?
    ensures OwnsOnly(m, t, pc, c, ScanStep(m, t, pc, c, pend).value)
  {
    hide Fill, Listed, Cached;
    var act := ScanStep(m, t, pc, c, pend).value;
    var filled := m.(sh := Fill(m.sh, pc.listing, pc.have, pc.snap, m.gen, pc.clean));
    SameCache(filled, act.mem);
    forall e | Cached(act.mem, e) || e in Refs(act.pc) ensures Cached(m, e) || e.gen == m.gen {
      FillOwns(m, pc.listing, pc.have, pc.snap, pc.clean, e);
    }
  }

  lemma OwnsCallback(m: Mem, t: Tid, pc: Pc, c: Choice, pend: Option<Scope>)
    requires (pc.ScanCallback? || pc.ScanHand?) && ScanStep(m, t, pc, c, pend).Some?
    ensures OwnsOnly(m, t, pc, c, ScanStep(m, t, pc, c, pend).value)
  {
    hide Cached;
    SameCache(m, ScanStep(m, t, pc, c, pend).value.mem);
  }

  lemma OwnsScan(m: Mem, t: Tid, pc: Pc, c: Choice, pend: Option<Scope>)
    requires InScan(pc) && ScanStep(m, t, pc, c, pend).Some?
    ensures OwnsOnly(m, t, pc, c, ScanStep(m, t, pc, c, pend).value)
  {
    hide OwnsOnly;
    if pc.ScanFill? {
      OwnsFill(m, t, pc, c, pend);
    } else if pc.ScanCallback? || pc.ScanHand? {
      OwnsCallback(m, t, pc, c, pend);
    } else {
      OwnsAlong(m, t, pc, c, ScanStep(m, t, pc, c, pend).value);
    }
  }

  lemma OwnsClear(m: Mem, t: Tid, pc: Pc, c: Choice)
    requires pc.InvEntryClear?
    ensures OwnsOnly(m, t, pc, c, InvalidateStep(m, t, pc, c).value)
  {
    var act := InvalidateStep(m, t, pc, c).value;
    forall e | Cached(act.mem, e) ensures Cached(m, e) {
      var n :| n in act.mem.sh.entries && act.mem.sh.entries[n] == e;
      assert m.sh.entries[n] == e;
    }
  }

  lemma OwnsInvalidate(m: Mem, t: Tid, pc: Pc, c: Choice)
    requires InvalidateStep(m, t, pc, c).Some?
    ensures OwnsOnly(m, t, pc, c, InvalidateStep(m, t, pc, c).value)
  {
    hide OwnsOnly;
    if pc.InvEntryClear? { OwnsClear(m, t, pc, c); } else { OwnsAlong(m, t, pc, c, InvalidateStep(m, t, pc, c).value); }
  }

  lemma OwnsStep(m: Mem, t: Tid, pc: Pc, c: Choice, pend: Option<Scope>)
    requires Step(m, t, pc, c, pend).Some?
    ensures OwnsOnly(m, t, pc, c, Step(m, t, pc, c, pend).value)
  {
    hide GetStep, LoadStep, ScanStep, InvalidateStep, OwnsOnly, Begin;
    if pc.Idle? {
      OwnsBegin(m, t, c);
    } else if InGet(pc) {
      OwnsGet(m, t, pc, c);
    } else if InLoad(pc) {
      OwnsLoad(m, t, pc, c);
    } else if InScan(pc) {
      OwnsScan(m, t, pc, c, pend);
    } else {
      OwnsInvalidate(m, t, pc, c);
    }
  }

  // ---------------------------------------------------------------- every step keeps it

  /** What is owned after a step was owned before it, or was built by it. */
  lemma OwnedBefore(s: State, t: Tid, c: Choice, e: Entry)
    requires Do(s, t, c).Some? && e in Owned(Do(s, t, c).value.mem, Do(s, t, c).value.procs)
    ensures var s' := Do(s, t, c).value; e in Owned(s.mem, s.procs) || s.mem.gen == e.gen < s'.mem.gen
  {
    hide Do, Step, Owned, Cached, AnchorsOf, Refs;
    DoIs(s, t, c);
    var s', pc := Do(s, t, c).value, PcOf(s, t);
    OwnsStep(s.mem, t, pc, c, PendingOf(s));
    OwnedIs(s.mem, s.procs, e);
    OwnedIs(s'.mem, s'.procs, e);
    if e in Refs(pc) { IdleOwnsNothing(s, t, e); }
    if u: Tid :| u in s'.procs && e in Refs(s'.procs[u]) {
      if u != t { assert u in s.procs && e in Refs(s.procs[u]); }
    } else if u: Tid :| e in AnchorsOf(s'.mem, u) {
      if u != t { assert e in AnchorsOf(s.mem, u); }
    }
  }

  lemma IdleOwnsNothing(s: State, t: Tid, e: Entry)
    requires e in Refs(PcOf(s, t))
    ensures t in s.procs && e in Refs(s.procs[t])
  {
  }

  lemma StepKeepsLive(s: State, t: Tid, c: Choice)
    requires LiveInv(s) && Do(s, t, c).Some?
    ensures LiveInv(Do(s, t, c).value)
  {
    hide Do, Step, Owned, Cached, AnchorsOf, Refs, PcOf, HandsOut;
    DoIs(s, t, c);
    var s' := Do(s, t, c).value;
    OwnsStep(s.mem, t, PcOf(s, t), c, PendingOf(s));
    forall e | e in Owned(s'.mem, s'.procs) ensures e.gen < s'.mem.gen && e !in s'.freed { OwnedBefore(s, t, c, e); }
    forall u: Tid | HandsOut(PcOf(s', u)).Some? ensures HandsOut(PcOf(s', u)).value in AnchorsOf(s'.mem, u) {
      if u != t { assert HandsOut(PcOf(s, u)).value in AnchorsOf(s.mem, u); }
    }
  }

  lemma TickKeepsLive(s: State)
    requires LiveInv(s)
    ensures LiveInv(Apply(s, Tick).value)
  {
    hide Owned, Refs, HandsOut;
    var s' := Apply(s, Tick).value;
    assert Owned(s'.mem, s'.procs) == Owned(s.mem, s.procs) by { TickOwns(s.mem, s.procs); }
    forall u: Tid ensures PcOf(s', u) == PcOf(s, u) && AnchorsOf(s'.mem, u) == AnchorsOf(s.mem, u) {}
  }

  lemma TickOwns(m: Mem, procs: map<Tid, Pc>)
    ensures Owned(m.(clock := m.clock + 1), procs) == Owned(m, procs)
  {
    hide Refs;
  }

  lemma InitLive()
    ensures LiveInv(Init)
  {
  }

  lemma {:induction false} RunsKeepLive(states: seq<State>, events: seq<Event>, k: nat)
    requires Run(states, events) && k < |states|
    ensures LiveInv(states[k])
  {
    hide LiveInv, Do;
    if k == 0 {
      InitLive();
    } else {
      RunsKeepLive(states, events, k - 1);
      assert Apply(states[k - 1], events[k - 1]) == Some(states[k]);
      if events[k - 1].Tick? {
        TickKeepsLive(states[k - 1]);
      } else {
        StepKeepsLive(states[k - 1], events[k - 1].t, events[k - 1].c);
      }
    }
  }

  // ---------------------------------------------------------------- pointers stay live

  lemma AnchorsStay(s: State, ev: Event, t: Tid, e: Entry)
    requires Apply(s, ev).Some? && ev != By(t, QueryEnd) && e in AnchorsOf(s.mem, t)
    ensures e in AnchorsOf(Apply(s, ev).value.mem, t)
  {
    if ev.By? {
      DoIs(s, ev.t, ev.c);
      hide Do, Step, Owned, AnchorsOf;
      OwnsStep(s.mem, ev.t, PcOf(s, ev.t), ev.c, PendingOf(s));
      OnlyQueryEnd(ev.t, ev.c);
    }
  }

  lemma OnlyQueryEnd(t: Tid, c: Choice)
    ensures c.QueryEnd? ==> By(t, c) == By(t, QueryEnd)
  {
  }

  lemma AnchoredIsOwned(m: Mem, procs: map<Tid, Pc>, t: Tid, e: Entry)
    requires e in AnchorsOf(m, t)
    ensures e in Owned(m, procs)
  {
    OwnedIs(m, procs, e);
  }

  lemma {:induction false} AnchoredUntilTheEnd(states: seq<State>, events: seq<Event>, i: nat, j: nat, t: Tid, e: Entry)
    requires Run(states, events) && i <= j < |states| && e in AnchorsOf(states[i].mem, t)
    requires forall k :: i <= k < j ==> events[k] != By(t, QueryEnd)
    ensures e in AnchorsOf(states[j].mem, t)
  {
    hide Apply, AnchorsOf;
    if i < j {
      AnchoredUntilTheEnd(states, events, i, j - 1, t, e);
      assert Apply(states[j - 1], events[j - 1]) == Some(states[j]);
      AnchorsStay(states[j - 1], events[j - 1], t, e);
    }
  }

  /** A pointer `GetEntry` returns or a scan passes to its callback is to an entry that is not freed before the query
      of the context it was handed to ends, whatever the other threads invalidate meanwhile. */
  lemma PointersStayLive(states: seq<State>, events: seq<Event>, i: nat, j: nat)
    requires Run(states, events) && i <= j < |states| && i < |events|
    requires events[i].By? && HandsOut(PcOf(states[i], events[i].t)).Some?
    requires forall k :: i <= k < j ==> events[k] != By(events[i].t, QueryEnd)
    ensures HandsOut(PcOf(states[i], events[i].t)).value !in states[j].freed
  {
    hide Apply, PcOf, HandsOut, AnchorsOf, Owned;
    var t := events[i].t;
    var e := HandsOut(PcOf(states[i], t)).value;
    RunsKeepLive(states, events, i);
    AnchoredUntilTheEnd(states, events, i, j, t, e);
    AnchoredIsOwned(states[j].mem, states[j].procs, t, e);
    RunsKeepLive(states, events, j);
  }

  /** The entries a thread looks at in its next step: through the cache, its own shared pointers, or the pointer it
      hands out. */
  function Touches(m: Mem, pc: Pc, c: Choice): set<Entry> {
    match pc
    case GetLook(n) => if n in m.sh.entries then {m.sh.entries[n]} else {}
    case Relook(n) => if n in m.sh.entries then {m.sh.entries[n]} else {}
    case Anchor(e) => {e}
    case Return(e) => {e}
    case LoadStore(_, _, got, _, _) => Fetched(got)
    case ScanFill(_, _, _, _, _) => set n | n in m.sh.entries :: m.sh.entries[n]
    case ScanCallback(_, _, _, _, todo) => todo
    case ScanHand(_, _, _, _, _, e) => {e}
    case _ => {}
  }

  lemma TouchesReached(m: Mem, pc: Pc, c: Choice, e: Entry)
    requires e in Touches(m, pc, c)
    ensures Reaches(m, pc, e)
  {
  }

  /** No step looks at an entry that has been freed. */
  lemma NothingFreedIsTouched(states: seq<State>, events: seq<Event>, k: nat)
    requires Run(states, events) && k < |events| && events[k].By?
    ensures Touches(states[k].mem, PcOf(states[k], events[k].t), events[k].c) !! states[k].freed
  {
    var s, t, c := states[k], events[k].t, events[k].c;
    RunsKeepLive(states, events, k);
    hide Touches, Owned, Run, Refs, Cached, AnchorsOf, PcOf, HandsOut;
    forall e | e in Touches(s.mem, PcOf(s, t), c) ensures e !in s.freed {
      TouchesReached(s.mem, PcOf(s, t), c, e);
      OwnedIs(s.mem, s.procs, e);
      if e in Refs(PcOf(s, t)) { IdleOwnsNothing(s, t, e); }
      assert e in Owned(s.mem, s.procs);
    }
  }

  lemma FreesUnowned(s: State, ev: Event, e: Entry)
    requires Apply(s, ev).Some?
    ensures var s' := Apply(s, ev).value;
            e in s'.freed <==> e in s.freed || (e in Owned(s.mem, s.procs) && e !in Owned(s'.mem, s'.procs))
  {
    if ev.By? { DoIs(s, ev.t, ev.c); } else { TickOwns(s.mem, s.procs); }
    hide Do, Owned;
  }

  /** An entry is freed exactly when its last owner has let go, and stays so: nothing leaks and nothing comes back. */
  lemma {:induction false} FreedExactly(states: seq<State>, events: seq<Event>, i: nat, j: nat, e: Entry)
    requires Run(states, events) && i <= j < |states| && e in Owned(states[i].mem, states[i].procs)
    ensures e in states[j].freed <==> e !in Owned(states[j].mem, states[j].procs)
  {
    hide Apply, Owned, PcOf, HandsOut, AnchorsOf;
    RunsKeepLive(states, events, j);
    if i < j {
      FreedExactly(states, events, i, j - 1, e);
      assert Apply(states[j - 1], events[j - 1]) == Some(states[j]);
      FreesUnowned(states[j - 1], events[j - 1], e);
    }
  }
}
