/** What each container, flag and context of the table set holds after a step, name by name, and what each mutex guards
    (src/catalog/mssql_table_set.cpp:36-416, src/catalog/mssql_bind_anchors.cpp:10-32). */
module TableSetEffects {
  import opened Staging
  import opened TableSet
  import opened TableSetSafety
  import opened TableSetRuns
  import opened TableSetTheorems
  import opened TableSetAnswers

  // ---------------------------------------------------------------- who moves

  /** Where the thread that takes the step at `k` is, and idle when the schema changes. */
  function MoverPc(s: State, ev: Event): Pc { if ev.By? then PcOf(s, ev.t) else Idle }

  lemma Moves(states: seq<State>, events: seq<Event>, k: nat)
    requires Run(states, events) && k < |events|
    ensures var s, ev, m' := states[k], events[k], states[k + 1].mem;
            if ev.By? then
              Step(s.mem, ev.t, MoverPc(s, ev), ev.c, PendingOf(s)) == Some(Act(PcOf(states[k + 1], ev.t), m'))
            else m' == s.mem.(clock := s.mem.clock + 1)
  {
    assert Apply(states[k], events[k]) == Some(states[k + 1]);
    hide Step, PcOf, PendingOf;
    if events[k].By? { OneStep(states, events, k, events[k].t); }
  }

  // ---------------------------------------------------------------- the containers, by membership

  /** A load whose epoch did not move, and which the server answered, is about to be published. */
  predicate Publishes(pc: Pc) { pc.LoadStore? && pc.clean && (pc.got.Some? || !pc.failed) }

  predicate ClearsEntry(pc: Pc, n: Name) { pc.InvEntryClear? && Covers(pc.scope, n) }

  predicate ClearsName(pc: Pc, n: Name) { pc.InvNamesClear? && Covers(pc.scope, n) }

  /** The names known to have been looked up: recorded by a filtered-out or unlisted name's answer and by a published
      load, and taken back by a clear. */
  ghost predicate AttemptedBy(m: Mem, pc: Pc, m': Mem, n: Name) {
    n in m'.sh.attempted <==>
      (n in m.sh.attempted && !ClearsEntry(pc, n)) || pc == NegStore(n) || pc == NamesNegStore(n) || (Publishes(pc) && pc.n == n)
  }

  /** The entry cached for a name: what was there stays until a clear, and an empty place is filled by a published
      load or by a scan on an unmoved epoch. */
  function CachedBy(m: Mem, pc: Pc, n: Name): Option<Entry> {
    if ClearsEntry(pc, n) then None
    else if n in m.sh.entries then Some(m.sh.entries[n])
    else if Publishes(pc) && pc.got.Some? && pc.got.value.name == n then pc.got
    else if pc.ScanFill? && pc.clean && n in pc.listing && n !in pc.have then Some(Entry(n, m.gen, pc.snap, pc.listing[n]))
    else None
  }

  function CachedFor(m: Mem, n: Name): Option<Entry> { if n in m.sh.entries then Some(m.sh.entries[n]) else None }

  ghost predicate KnownBy(m: Mem, pc: Pc, m': Mem, n: Name) {
    n in m'.sh.known <==> (n in m.sh.known && !ClearsName(pc, n)) || (pc.ScanFill? && pc.clean && n in pc.listing)
  }

  ghost predicate FlagsBy(m: Mem, pc: Pc, m': Mem) {
    && (m'.sh.fully <==> (m.sh.fully && !pc.InvLowerFully?) || pc.ScanStoreFully?)
    && (m'.sh.namesLoaded <==> (m.sh.namesLoaded && !pc.InvLowerNames?) || pc.ScanStoreNames?)
    && m'.sh.epoch == m.sh.epoch + if pc.InvBump? then 1 else 0
  }

  ghost predicate Effects(m: Mem, pc: Pc, m': Mem) {
    FlagsBy(m, pc, m') && forall n: Name :: AttemptedBy(m, pc, m', n) && KnownBy(m, pc, m', n) && CachedFor(m', n) == CachedBy(m, pc, n)
  }

  /** Steps that leave every container and flag alone. */
  predicate Quiet(pc: Pc) {
    !Publishes(pc) && !pc.NegStore? && !pc.NamesNegStore? && !(pc.ScanFill? && pc.clean) && !pc.ScanStoreNames?
    && !pc.ScanStoreFully? && !pc.InvBump? && !pc.InvLowerFully? && !pc.InvLowerNames? && !pc.InvEntryClear? && !pc.InvNamesClear?
  }

  lemma EffectsNone(m: Mem, pc: Pc, m': Mem)
    requires Quiet(pc) && m'.sh.(loads := m.sh.loads) == m.sh
    ensures Effects(m, pc, m')
  {
  }

  lemma EffectsNegative(m: Mem, t: Tid, pc: Pc, c: Choice)
    requires pc.NegStore? || pc.NamesNegStore?
    ensures Effects(m, pc, GetStep(m, t, pc, c).value.mem)
  {
  }

  lemma EffectsGet(m: Mem, t: Tid, pc: Pc, c: Choice)
    requires InGet(pc) && GetStep(m, t, pc, c).Some?
    ensures Effects(m, pc, GetStep(m, t, pc, c).value.mem)
  {
    hide AnchorsOf, Effects;
    if pc.NegStore? || pc.NamesNegStore? {
      EffectsNegative(m, t, pc, c);
    } else {
      EffectsNone(m, pc, GetStep(m, t, pc, c).value.mem);
    }
  }

  lemma EffectsPublish(m: Mem, pc: Pc)
    requires Publishes(pc)
    ensures Effects(m, pc, m.(sh := StoreLoaded(m.sh, pc.n, pc.got, pc.failed, pc.clean)))
  {
  }

  lemma LoadIsQuiet(m: Mem, t: Tid, pc: Pc, c: Choice)
    requires InLoad(pc) && LoadStep(m, t, pc, c).Some?
    ensures var m' := LoadStep(m, t, pc, c).value.mem;
            if Publishes(pc) then m' == m.(sh := StoreLoaded(m.sh, pc.n, pc.got, pc.failed, pc.clean))
            else Quiet(pc) && m'.sh.(loads := m.sh.loads) == m.sh
  {
    hide Emplace;
  }

  lemma EffectsLoad(m: Mem, t: Tid, pc: Pc, c: Choice)
    requires InLoad(pc) && LoadStep(m, t, pc, c).Some?
    ensures Effects(m, pc, LoadStep(m, t, pc, c).value.mem)
  {
    LoadIsQuiet(m, t, pc, c);
    hide *;
    if Publishes(pc) { EffectsPublish(m, pc); } else { EffectsNone(m, pc, LoadStep(m, t, pc, c).value.mem); }
  }

  lemma EffectsFill(m: Mem, t: Tid, pc: Pc, c: Choice, pend: Option<Scope>)
    requires pc.ScanFill? && pc.clean
    ensures Effects(m, pc, ScanStep(m, t, pc, c, pend).value.mem)
  {
    hide Listed;
  }

  lemma EffectsFlags(m: Mem, t: Tid, pc: Pc, c: Choice, pend: Option<Scope>)
    requires pc.ScanStoreNames? || pc.ScanStoreFully?
    ensures Effects(m, pc, ScanStep(m, t, pc, c, pend).value.mem)
  {
    hide Spared;
  }

  lemma EffectsScan(m: Mem, t: Tid, pc: Pc, c: Choice, pend: Option<Scope>)
    requires InScan(pc) && ScanStep(m, t, pc, c, pend).Some?
    ensures Effects(m, pc, ScanStep(m, t, pc, c, pend).value.mem)
  {
    hide Listed, AnchorsOf, Spared, Built, Effects;
    if pc.ScanFill? && pc.clean {
      EffectsFill(m, t, pc, c, pend);
    } else if pc.ScanStoreNames? || pc.ScanStoreFully? {
      EffectsFlags(m, t, pc, c, pend);
    } else {
      EffectsNone(m, pc, ScanStep(m, t, pc, c, pend).value.mem);
    }
  }

  lemma EffectsClear(m: Mem, t: Tid, pc: Pc, c: Choice)
    requires pc.InvEntryClear? || pc.InvNamesClear?
    ensures Effects(m, pc, InvalidateStep(m, t, pc, c).value.mem)
  {
  }

  lemma EffectsInvalidate(m: Mem, t: Tid, pc: Pc, c: Choice)
    requires !InScan(pc) && !InLoad(pc) && !InGet(pc) && InvalidateStep(m, t, pc, c).Some?
    ensures Effects(m, pc, InvalidateStep(m, t, pc, c).value.mem)
  {
    if pc.InvEntryClear? || pc.InvNamesClear? {
      hide *;
      EffectsClear(m, t, pc, c);
    } else if pc.InvWant? || pc.InvEntryWant? || pc.InvNamesWant? {
      hide Effects;
      EffectsNone(m, pc, InvalidateStep(m, t, pc, c).value.mem);
    }
  }

  lemma EffectsStep(m: Mem, t: Tid, pc: Pc, c: Choice, pend: Option<Scope>)
    requires Step(m, t, pc, c, pend).Some?
    ensures Effects(m, pc, Step(m, t, pc, c, pend).value.mem)
  {
    hide GetStep, LoadStep, ScanStep, InvalidateStep, Effects, InGet, InLoad, InScan;
    if pc.Idle? {
      EffectsIdle(m, Step(m, t, pc, c, pend).value.mem);
    } else if InGet(pc) {
      EffectsGet(m, t, pc, c);
    } else if InLoad(pc) {
      EffectsLoad(m, t, pc, c);
    } else if InScan(pc) {
      EffectsScan(m, t, pc, c, pend);
    } else {
      EffectsInvalidate(m, t, pc, c);
    }
  }

  lemma EffectsIdle(m: Mem, m': Mem)
    requires m'.sh == m.sh
    ensures Effects(m, Idle, m')
  {
  }

  /** Every container, flag and the epoch after any event of any run, name by name. */
  lemma EveryEffect(states: seq<State>, events: seq<Event>, k: nat)
    requires Run(states, events) && k < |events|
    ensures Effects(states[k].mem, MoverPc(states[k], events[k]), states[k + 1].mem)
  {
    Moves(states, events, k);
    hide *;
    var s, ev := states[k], events[k];
    if ev.By? {
      EffectsStep(s.mem, ev.t, MoverPc(s, ev), ev.c, PendingOf(s));
    } else {
      TickMover(s, ev);
      EffectsIdle(s.mem, states[k + 1].mem);
    }
  }

  lemma TickMover(s: State, ev: Event)
    requires ev.Tick?
    ensures MoverPc(s, ev) == Idle && s.mem.(clock := s.mem.clock + 1).sh == s.mem.sh
  {
  }

  // ---------------------------------------------------------------- the anchors

  /** What a context keeps alive: every entry handed out in it, until its query ends. */
  ghost predicate AnchorsBy(m: Mem, t: Tid, c: Choice, pc: Pc, a: Act) {
    forall u: Tid, e: Entry :: KeptBy(m, t, c, pc, a, u, e)
  }

  ghost predicate KeptBy(m: Mem, t: Tid, c: Choice, pc: Pc, a: Act, u: Tid, e: Entry) {
    e in AnchorsOf(a.mem, u) <==>
      (e in AnchorsOf(m, u) && !(u == t && pc.Idle? && c.QueryEnd?)) || (u == t && HandsOut(a.pc) == Some(e))
  }

  lemma SameAnchors(m: Mem, t: Tid, c: Choice, pc: Pc, a: Act)
    requires a.mem.anchors == m.anchors && HandsOut(a.pc) == None && !(pc.Idle? && c.QueryEnd?)
    ensures AnchorsBy(m, t, c, pc, a)
  {
    hide HandsOut;
    forall u: Tid, e: Entry ensures KeptBy(m, t, c, pc, a, u, e) {}
  }

  lemma OneMoreAnchor(m: Mem, t: Tid, c: Choice, pc: Pc, a: Act, x: Entry)
    requires a.mem == Keep(m, t, x) && HandsOut(a.pc) == Some(x) && !pc.Idle?
    ensures AnchorsBy(m, t, c, pc, a)
  {
    hide HandsOut;
    forall u: Tid, e: Entry ensures KeptBy(m, t, c, pc, a, u, e) {}
  }

  lemma AnchorsBegin(m: Mem, t: Tid, c: Choice)
    requires Begin(m, t, c).Some?
    ensures AnchorsBy(m, t, c, Idle, Begin(m, t, c).value)
  {
    var a := Begin(m, t, c).value;
    if c.QueryEnd? {
      forall u: Tid, e: Entry ensures KeptBy(m, t, c, Idle, a, u, e) {}
    } else {
      SameAnchors(m, t, c, Idle, a);
    }
  }

  lemma AnchorsGet(m: Mem, t: Tid, pc: Pc, c: Choice)
    requires InGet(pc) && GetStep(m, t, pc, c).Some?
    ensures AnchorsBy(m, t, c, pc, GetStep(m, t, pc, c).value)
  {
    hide AnchorsBy, Keep;
    var a := GetStep(m, t, pc, c).value;
    if pc.Anchor? { OneMoreAnchor(m, t, c, pc, a, pc.e); } else { SameAnchors(m, t, c, pc, a); }
  }

  lemma AnchorsScan(m: Mem, t: Tid, pc: Pc, c: Choice, pend: Option<Scope>)
    requires InScan(pc) && ScanStep(m, t, pc, c, pend).Some?
    ensures AnchorsBy(m, t, c, pc, ScanStep(m, t, pc, c, pend).value)
  {
    hide AnchorsBy, Keep, Fill, Listed;
    var a := ScanStep(m, t, pc, c, pend).value;
    if pc.ScanCallback? && pc.todo != {} { OneMoreAnchor(m, t, c, pc, a, c.e); } else { SameAnchors(m, t, c, pc, a); }
  }

  lemma AnchorsOther(m: Mem, t: Tid, pc: Pc, c: Choice, pend: Option<Scope>)
    requires !pc.Idle? && !InGet(pc) && !InScan(pc) && Step(m, t, pc, c, pend).Some?
    ensures AnchorsBy(m, t, c, pc, Step(m, t, pc, c, pend).value)
  {
    hide AnchorsBy, ClearEntries, ClearNames, StoreLoaded;
    SameAnchors(m, t, c, pc, Step(m, t, pc, c, pend).value);
  }

  /** After any thread's step of any run, every context keeps exactly what it kept, with the entry now being handed out
      in it, and nothing once its query has ended. */
  lemma EveryAnchor(states: seq<State>, events: seq<Event>, k: nat)
    requires Run(states, events) && k < |events| && events[k].By?
    ensures var t := events[k].t;
            AnchorsBy(states[k].mem, t, events[k].c, PcOf(states[k], t), Act(PcOf(states[k + 1], t), states[k + 1].mem))
  {
    OneStep(states, events, k, events[k].t);
    hide GetStep, LoadStep, ScanStep, InvalidateStep, Begin, AnchorsBy, Run, PcOf, PendingOf;
    var t, c, m, pc := events[k].t, events[k].c, states[k].mem, PcOf(states[k], events[k].t);
    if pc.Idle? {
      AnchorsBegin(m, t, c);
    } else if InGet(pc) {
      AnchorsGet(m, t, pc, c);
    } else if InScan(pc) {
      NotInTwo(pc);
      AnchorsScan(m, t, pc, c, PendingOf(states[k]));
    } else {
      AnchorsOther(m, t, pc, c, PendingOf(states[k]));
    }
  }

  lemma NotInTwo(pc: Pc)
    ensures InScan(pc) ==> !InLoad(pc) && !InGet(pc)
  {
  }

  // ---------------------------------------------------------------- what the mutexes guard

  /** The memory with other contents, those of `o`, in the containers a mutex guards. */
  function Other(m: Mem, o: Shared, l: Lock): Mem {
    match l
    case EntryMutex => m.(sh := m.sh.(entries := o.entries, attempted := o.attempted, loads := o.loads))
    case NamesMutex => m.(sh := m.sh.(known := o.known))
    case LoadMutex => m
  }

  /** A step goes the same way with other contents, and leaves those as they are. */
  ghost predicate Unaffected(a: Option<Act>, b: Option<Act>, o: Shared, l: Lock) {
    if a.None? then b.None? else b == Some(Act(a.value.pc, Other(a.value.mem, o, l)))
  }

  lemma UnaffectedBegin(m: Mem, t: Tid, c: Choice, o: Shared, l: Lock)
    ensures Unaffected(Begin(m, t, c), Begin(Other(m, o, l), t, c), o, l)
  {
  }

  lemma UnaffectedGet(m: Mem, t: Tid, pc: Pc, c: Choice, o: Shared, l: Lock)
    requires InGet(pc) && l !in Holds(pc)
    ensures Unaffected(GetStep(m, t, pc, c), GetStep(Other(m, o, l), t, pc, c), o, l)
  {
    if pc.Anchor? {
      OtherKeeps(m, t, pc.e, o, l);
      hide *;
      UnaffectedAnchor(m, t, pc, c, o, l);
    } else {
      hide *;
      if UsesTables(pc) { UnaffectedTables(m, t, pc, c, o, l); } else { UnaffectedRest(m, t, pc, c, o, l); }
    }
  }

  predicate UsesTables(pc: Pc) { pc.GetLook? || pc.Relook? || pc.NegStore? || pc.NamesLook? || pc.NamesNegStore? }

  lemma HoldsItsMutex(pc: Pc)
    ensures pc.GetLook? || pc.Relook? || pc.NegStore? || pc.NamesNegStore? ==> EntryMutex in Holds(pc)
    ensures pc.NamesLook? ==> NamesMutex in Holds(pc)
  {
  }

  lemma UnaffectedTables(m: Mem, t: Tid, pc: Pc, c: Choice, o: Shared, l: Lock)
    requires UsesTables(pc) && l !in Holds(pc)
    ensures Unaffected(GetStep(m, t, pc, c), GetStep(Other(m, o, l), t, pc, c), o, l)
  {
    hide Holds;
    HoldsItsMutex(pc);
    if pc.NamesLook? { assert l != NamesMutex; } else { assert l != EntryMutex; }
  }

  lemma UnaffectedRest(m: Mem, t: Tid, pc: Pc, c: Choice, o: Shared, l: Lock)
    requires !UsesTables(pc) && !pc.Anchor?
    ensures Unaffected(GetStep(m, t, pc, c), GetStep(Other(m, o, l), t, pc, c), o, l)
  {
    SameFlags(m, o, l);
    hide GetStep, Other, UsesTables;
    RestReadsFlags(m, Other(m, o, l), t, pc, c);
  }

  lemma SameFlags(m: Mem, o: Shared, l: Lock)
    ensures Other(m, o, l).sh.fully == m.sh.fully && Other(m, o, l).sh.namesLoaded == m.sh.namesLoaded
  {
  }

  lemma RestReadsFlags(m: Mem, m': Mem, t: Tid, pc: Pc, c: Choice)
    requires !UsesTables(pc) && !pc.Anchor? && m'.sh.fully == m.sh.fully && m'.sh.namesLoaded == m.sh.namesLoaded
    ensures var a := GetStep(m, t, pc, c);
            GetStep(m', t, pc, c) == (if a.None? then None else Some(Act(a.value.pc, m'))) && (a.Some? ==> a.value.mem == m)
  {
    hide Keep;
  }

  lemma UnaffectedAnchor(m: Mem, t: Tid, pc: Pc, c: Choice, o: Shared, l: Lock)
    requires pc.Anchor? && Keep(Other(m, o, l), t, pc.e) == Other(Keep(m, t, pc.e), o, l)
    ensures Unaffected(GetStep(m, t, pc, c), GetStep(Other(m, o, l), t, pc, c), o, l)
  {
    hide Keep, Other;
  }

  lemma OtherKeeps(m: Mem, t: Tid, e: Entry, o: Shared, l: Lock)
    ensures Keep(Other(m, o, l), t, e) == Other(Keep(m, t, e), o, l)
  {
    assert AnchorsOf(Other(m, o, l), t) == AnchorsOf(m, t);
  }

  lemma UnaffectedLoad(m: Mem, t: Tid, pc: Pc, c: Choice, o: Shared, l: Lock)
    requires InLoad(pc) && l !in Holds(pc)
    ensures Unaffected(LoadStep(m, t, pc, c), LoadStep(Other(m, o, l), t, pc, c), o, l)
  {
    hide Emplace;
  }

  lemma UnaffectedScan(m: Mem, t: Tid, pc: Pc, c: Choice, pend: Option<Scope>, o: Shared, l: Lock)
    requires InScan(pc) && l !in Holds(pc)
    ensures Unaffected(ScanStep(m, t, pc, c, pend), ScanStep(Other(m, o, l), t, pc, c, pend), o, l)
  {
    if pc.ScanCallback? && c.Next? { OtherKeeps(m, t, c.e, o, l); }
    hide Keep, Fill, Listed, Spared;
  }

  lemma UnaffectedInvalidate(m: Mem, t: Tid, pc: Pc, c: Choice, o: Shared, l: Lock)
    requires l !in Holds(pc)
    ensures Unaffected(InvalidateStep(m, t, pc, c), InvalidateStep(Other(m, o, l), t, pc, c), o, l)
  {
  }

  /** A step of a thread without `entry_mutex_` neither looks at nor changes the entries, the negative answers or the
      load slots, and without `names_mutex_` neither looks at nor changes the known names. */
  lemma MutexGuards(m: Mem, t: Tid, pc: Pc, c: Choice, pend: Option<Scope>, o: Shared, l: Lock)
    requires l !in Holds(pc)
    ensures Unaffected(Step(m, t, pc, c, pend), Step(Other(m, o, l), t, pc, c, pend), o, l)
  {
    hide Begin, GetStep, LoadStep, ScanStep, InvalidateStep, Other, Unaffected, Holds;
    if pc.Idle? {
      UnaffectedBegin(m, t, c, o, l);
    } else if InGet(pc) {
      UnaffectedGet(m, t, pc, c, o, l);
    } else if InLoad(pc) {
      UnaffectedLoad(m, t, pc, c, o, l);
    } else if InScan(pc) {
      UnaffectedScan(m, t, pc, c, pend, o, l);
    } else {
      UnaffectedInvalidate(m, t, pc, c, o, l);
    }
  }

  /** Without `load_mutex_` a step neither raises or lowers a flag nor moves the epoch. */
  lemma LoadMutexGuards(states: seq<State>, events: seq<Event>, k: nat)
    requires Run(states, events) && k < |events| && LoadMutex !in Holds(MoverPc(states[k], events[k]))
    ensures var sh, sh' := states[k].mem.sh, states[k + 1].mem.sh;
            sh'.fully == sh.fully && sh'.namesLoaded == sh.namesLoaded && sh'.epoch == sh.epoch
  {
    EveryEffect(states, events, k);
    hide Run, MoverPc, Holds;
    PublishesLocked(MoverPc(states[k], events[k]));
  }

  lemma PublishesLocked(pc: Pc)
    requires LoadMutex !in Holds(pc)
    ensures !pc.InvBump? && !pc.InvLowerFully? && !pc.InvLowerNames? && !pc.ScanStoreNames? && !pc.ScanStoreFully?
  {
  }
}
