/** The table-set cache as a state machine: any number of threads, three mutexes, an epoch counter, two flags
    and a single-flight set (src/catalog/mssql_table_set.cpp:36-430, src/catalog/mssql_bind_anchors.cpp:10-32). */
module TableSet {
  import opened Staging

  type Name = string
  type Tid = nat

  datatype Lock = LoadMutex | NamesMutex | EntryMutex

  /** A table entry: `gen` tells objects apart, `snap` is the epoch its load had seen when it began and
      `readAt` the schema's clock when the server answered. */
  datatype Entry = Entry(name: Name, gen: nat, snap: nat, readAt: nat)

  datatype Scope = All | One(name: Name)

  /** Where a thread is between two atomic actions; a `Want` is a thread about to lock. `pend` is history the code
      does not keep: what an invalidation under way at the scan's snapshot had still to clear. */
  datatype Pc =
    | Idle
    | GetWant(n: Name) | GetLook(n: Name) | GetFully(n: Name) | GetFilter(n: Name)
    | NegWant(n: Name) | NegStore(n: Name)
    | GetFlag(n: Name) | NamesWant(n: Name) | NamesLook(n: Name)
    | NamesNegWant(n: Name) | NamesNegStore(n: Name)
    | LoadWant(n: Name) | LoadEnter(n: Name) | LoadWaiting(n: Name)
    | LoadFetch(n: Name, snap: nat, since: nat)
    | LoadPublishWant(n: Name, snap: nat, got: Option<Entry>, failed: bool)
    | LoadPublish(n: Name, snap: nat, got: Option<Entry>, failed: bool)
    | LoadStore(n: Name, snap: nat, got: Option<Entry>, failed: bool, clean: bool)
    | RelookWant(n: Name) | Relook(n: Name)
    | Anchor(e: Entry) | Return(e: Entry)
    | ScanSnap
    | ScanLoad(snap: nat, pend: Option<Scope>, since: nat)
    | ScanHaveWant(snap: nat, pend: Option<Scope>, listing: map<Name, nat>)
    | ScanHave(snap: nat, pend: Option<Scope>, listing: map<Name, nat>)
    | ScanNamesWant(snap: nat, pend: Option<Scope>, listing: map<Name, nat>, have: set<Name>)
    | ScanEntryWant(snap: nat, pend: Option<Scope>, listing: map<Name, nat>, have: set<Name>)
    | ScanEpoch(snap: nat, pend: Option<Scope>, listing: map<Name, nat>, have: set<Name>)
    | ScanFill(snap: nat, pend: Option<Scope>, listing: map<Name, nat>, have: set<Name>, clean: bool)
    | ScanCallback(snap: nat, pend: Option<Scope>, listing: map<Name, nat>, done: set<Entry>, todo: set<Entry>)
    | ScanHand(snap: nat, pend: Option<Scope>, listing: map<Name, nat>, done: set<Entry>, todo: set<Entry>, e: Entry)
    | ScanPublishWant(snap: nat, pend: Option<Scope>, listing: map<Name, nat>, done: set<Entry>)
    | ScanCompare(snap: nat, pend: Option<Scope>, listing: map<Name, nat>, done: set<Entry>)
    | ScanStoreNames(snap: nat, pend: Option<Scope>, listing: map<Name, nat>, done: set<Entry>)
    | ScanStoreFully(snap: nat, pend: Option<Scope>, listing: map<Name, nat>, done: set<Entry>)
    | InvWant(scope: Scope) | InvBump(scope: Scope)
    | InvLowerFully(scope: Scope, epoch: nat) | InvLowerNames(scope: Scope, epoch: nat)
    | InvEntryWant(scope: Scope, epoch: nat) | InvEntryClear(scope: Scope, epoch: nat)
    | InvNamesWant(scope: Scope, epoch: nat) | InvNamesClear(scope: Scope, epoch: nat)

  function Holds(pc: Pc): set<Lock> {
    match pc
    case GetLook(_) | NegStore(_) | LoadEnter(_) | LoadPublish(_, _, _, _) | LoadStore(_, _, _, _, _) | Relook(_) => {EntryMutex}
    case ScanHave(_, _, _) => {EntryMutex}
    case NamesLook(_) | NamesNegWant(_) => {NamesMutex}
    case ScanEntryWant(_, _, _, _) => {NamesMutex}
    case NamesNegStore(_) => {NamesMutex, EntryMutex}
    case ScanEpoch(_, _, _, _) | ScanFill(_, _, _, _, _) => {NamesMutex, EntryMutex}
    case ScanCompare(_, _, _, _) | ScanStoreNames(_, _, _, _) | ScanStoreFully(_, _, _, _) => {LoadMutex}
    case InvBump(_) | InvLowerFully(_, _) | InvLowerNames(_, _) | InvEntryWant(_, _) | InvNamesWant(_, _) => {LoadMutex}
    case InvEntryClear(_, _) => {LoadMutex, EntryMutex}
    case InvNamesClear(_, _) => {LoadMutex, NamesMutex}
    case _ => {}
  }

  /** The mutex a thread is blocked on, if any. */
  function Wants(pc: Pc): Option<Lock> {
    match pc
    case GetWant(_) | NegWant(_) | NamesNegWant(_) | LoadWant(_) | LoadPublishWant(_, _, _, _) | RelookWant(_) => Some(EntryMutex)
    case ScanHaveWant(_, _, _) | ScanEntryWant(_, _, _, _) | InvEntryWant(_, _) => Some(EntryMutex)
    case NamesWant(_) | ScanNamesWant(_, _, _, _) | InvNamesWant(_, _) => Some(NamesMutex)
    case ScanPublishWant(_, _, _, _) | InvWant(_) => Some(LoadMutex)
    case _ => None
  }

  /** The name a thread holds the load slot of. */
  function Fetches(pc: Pc): Option<Name> {
    match pc
    case LoadFetch(n, _, _) => Some(n)
    case LoadPublishWant(n, _, _, _) => Some(n)
    case LoadPublish(n, _, _, _) => Some(n)
    case LoadStore(n, _, _, _, _) => Some(n)
    case _ => None
  }

  /** The entries whose shared pointers are on a thread's stack. */
  function Refs(pc: Pc): set<Entry> {
    match pc
    case Anchor(e) => {e}
    case Return(e) => {e}
    case LoadPublishWant(_, _, got, _) => Fetched(got)
    case LoadPublish(_, _, got, _) => Fetched(got)
    case LoadStore(_, _, got, _, _) => Fetched(got)
    case ScanCallback(_, _, _, done, todo) => done + todo
    case ScanHand(_, _, _, done, todo, e) => done + todo + {e}
    case ScanPublishWant(_, _, _, done) => done
    case ScanCompare(_, _, _, done) => done
    case ScanStoreNames(_, _, _, done) => done
    case ScanStoreFully(_, _, _, done) => done
    case _ => {}
  }

  function Fetched(got: Option<Entry>): set<Entry> { if got.Some? then {got.value} else {} }

  /** The entry whose raw pointer a thread is about to hand out: what `GetEntry` returns, or what a scan passes to
      its callback. */
  function HandsOut(pc: Pc): Option<Entry> {
    match pc
    case Return(e) => Some(e)
    case ScanHand(_, _, _, _, _, e) => Some(e)
    case _ => None
  }

  /** An invalidation that has moved the epoch and not yet taken `names_mutex_` for its last clear. */
  predicate Pending(pc: Pc) {
    pc.InvLowerFully? || pc.InvLowerNames? || pc.InvEntryWant? || pc.InvEntryClear? || pc.InvNamesWant?
  }

  predicate Covers(scope: Scope, n: Name) { scope.All? || scope.name == n }

  /** The names an invalidation, if there is one, does not clear. */
  function Spared(names: set<Name>, pend: Option<Scope>): set<Name> {
    if pend.None? then names else if pend.value.All? then {} else names - {pend.value.name}
  }

  // ---------------------------------------------------------------- the shared fields

  datatype Shared = Shared(
    entries: map<Name, Entry>, attempted: set<Name>, known: set<Name>, loads: map<Name, Tid>,
    epoch: nat, namesLoaded: bool, fully: bool)

  /** Take the load slot of `n`. */
  function TakeSlot(sh: Shared, n: Name, t: Tid): Shared { sh.(loads := sh.loads[n := t]) }

  /** Emplace: an entry already there wins. */
  function Emplace(entries: map<Name, Entry>, e: Entry): map<Name, Entry> {
    if e.name in entries then entries else entries[e.name := e]
  }

  /** Publish a finished load if the epoch did not move, and give the slot back either way. */
  function StoreLoaded(sh: Shared, n: Name, got: Option<Entry>, failed: bool, clean: bool): Shared {
    var published :=
      if clean && got.Some? then sh.(entries := Emplace(sh.entries, got.value), attempted := sh.attempted + {n})
      else if clean && !failed && got.None? then sh.(attempted := sh.attempted + {n})
      else sh;
    published.(loads := published.loads - {n})
  }

  /** The entries a scan builds for the names it did not have. */
  function Built(listing: map<Name, nat>, have: set<Name>, snap: nat, gen: nat): map<Name, Entry> {
    map n | n in listing && n !in have :: Entry(n, gen, snap, listing[n])
  }

  /** Pass C of a scan: emplace the built entries and record the names, unless an invalidation landed. */
  function Fill(sh: Shared, listing: map<Name, nat>, have: set<Name>, snap: nat, gen: nat, clean: bool): Shared {
    if clean then sh.(entries := Built(listing, have, snap, gen) + sh.entries, known := sh.known + listing.Keys)
    else sh
  }

  /** The entries a scan hands to its callback. */
  function Listed(sh: Shared, listing: map<Name, nat>, have: set<Name>, snap: nat, gen: nat, clean: bool): set<Entry> {
    var filled := Fill(sh, listing, have, snap, gen, clean).entries;
    (set n | n in listing && n !in have :: if clean then filled[n] else Built(listing, have, snap, gen)[n])
    + set n | n in listing && n in have && n in filled :: filled[n]
  }

  function ClearEntries(sh: Shared, scope: Scope): Shared {
    match scope
    case All => sh.(entries := map[], attempted := {})
    case One(n) => sh.(entries := sh.entries - {n}, attempted := sh.attempted - {n})
  }

  function ClearNames(sh: Shared, scope: Scope): Shared {
    match scope
    case All => sh.(known := {})
    case One(n) => sh.(known := sh.known - {n})
  }

  // ---------------------------------------------------------------- the machine

  /** What the steps change besides program counters and mutexes. `clock` moves with every change on the server.
      The last four fields are history the code does not keep: the clock at each epoch's bump, the epochs whose
      entry clear has run, and the names published since the flags were lowered, but for those an invalidation under
      way at the snapshot had still to clear. */
  datatype Mem = Mem(
    sh: Shared, anchors: map<Tid, set<Entry>>, clock: nat, gen: nat,
    bumpClock: seq<nat>, clearedAll: nat, clearedName: map<Name, nat>, published: set<Name>)

  /** `freed`: the entries whose last owner has let go. */
  datatype State = State(mem: Mem, locks: map<Lock, Tid>, procs: map<Tid, Pc>, freed: set<Entry>)

  const Init := State(
    Mem(Shared(map[], {}, {}, map[], 0, false, false), map[], 0, 0, [0], 0, map[], {}), map[], map[], {})

  function PcOf(s: State, t: Tid): Pc { if t in s.procs then s.procs[t] else Idle }

  function AnchorsOf(m: Mem, t: Tid): set<Entry> { if t in m.anchors then m.anchors[t] else {} }

  /** The entries with an owner: the cache, a shared pointer on some thread's stack, or some context's anchors. */
  function Owned(m: Mem, procs: map<Tid, Pc>): set<Entry> {
    (set n | n in m.sh.entries :: m.sh.entries[n])
    + (set t, e | t in procs && e in Refs(procs[t]) :: e)
    + (set t, e | t in m.anchors && e in m.anchors[t] :: e)
  }

  /** What the invalidation under way, if there is one, has still to clear. */
  function PendingOf(s: State): Option<Scope> {
    if LoadMutex in s.locks && Pending(PcOf(s, s.locks[LoadMutex])) then Some(PcOf(s, s.locks[LoadMutex]).scope) else None
  }

  /** The latest invalidation covering `n` whose entry clear has run. */
  function Cleared(m: Mem, n: Name): nat {
    if n in m.clearedName && m.clearedName[n] > m.clearedAll then m.clearedName[n] else m.clearedAll
  }

  /** One more owner for `e`, until this context's query ends. */
  function Keep(m: Mem, t: Tid, e: Entry): Mem { m.(anchors := m.anchors[t := AnchorsOf(m, t) + {e}]) }

  /** What the environment decides: which operation starts, whether a name is filtered out, what the server
      answers and when it read that, which listed entry is next. */
  datatype Choice =
    | Get(name: Name) | Scan | Invalidate(scope: Scope) | QueryEnd
    | Go
    | Filtered(out: bool)
    | Answer(found: bool, failed: bool, at: nat)
    | Listing(rows: map<Name, nat>) | ListingFailed
    | Next(e: Entry)

  /** Where a step leaves its thread, and the memory after it. */
  datatype Act = Act(pc: Pc, mem: Mem)

  function To(m: Mem, pc: Pc): Option<Act> { Some(Act(pc, m)) }

  function Begin(m: Mem, t: Tid, c: Choice): Option<Act> {
    match c
    case Get(n) => To(m, GetWant(n))
    case Scan => To(m, ScanSnap)
    case Invalidate(scope) => To(m, InvWant(scope))
    case QueryEnd => To(m.(anchors := m.anchors[t := {}]), Idle)
    case _ => None
  }

  function GetStep(m: Mem, t: Tid, pc: Pc, c: Choice): Option<Act> {
    var sh := m.sh;
    match pc
    case GetWant(n) => To(m, GetLook(n))
    case GetLook(n) =>
      To(m, if n in sh.entries then Anchor(sh.entries[n]) else if n in sh.attempted then Idle else GetFully(n))
    case GetFully(n) => To(m, if sh.fully then Idle else GetFilter(n))
    case GetFilter(n) => if c.Filtered? then To(m, if c.out then NegWant(n) else GetFlag(n)) else None
    case NegWant(n) => To(m, NegStore(n))
    case NegStore(n) => To(m.(sh := sh.(attempted := sh.attempted + {n})), Idle)
    case GetFlag(n) => To(m, if sh.namesLoaded then NamesWant(n) else LoadWant(n))
    case NamesWant(n) => To(m, NamesLook(n))
    case NamesLook(n) => To(m, if sh.namesLoaded && n !in sh.known then NamesNegWant(n) else LoadWant(n))
    case NamesNegWant(n) => To(m, NamesNegStore(n))
    case NamesNegStore(n) => To(m.(sh := sh.(attempted := sh.attempted + {n})), Idle)
    case RelookWant(n) => To(m, Relook(n))
    case Relook(n) => To(m, if n in sh.entries then Anchor(sh.entries[n]) else Idle)
    case Anchor(e) => To(Keep(m, t, e), Return(e))
    case Return(_) => To(m, Idle)
    case _ => None
  }

  function LoadStep(m: Mem, t: Tid, pc: Pc, c: Choice): Option<Act> {
    var sh := m.sh;
    match pc
    case LoadWant(n) => To(m, LoadEnter(n))
    case LoadEnter(n) =>
      if n in sh.loads then To(m, LoadWaiting(n))
      else if n in sh.entries then To(m, RelookWant(n))
      else if n in sh.attempted then To(m, Idle)
      else To(m.(sh := TakeSlot(sh, n, t)), LoadFetch(n, sh.epoch, m.clock))
    case LoadWaiting(n) => To(m, LoadWant(n))
    case LoadFetch(n, snap, since) =>
      if !c.Answer? || !(since <= c.at <= m.clock) then None
      else if c.found && !c.failed then
        To(m.(gen := m.gen + 1), LoadPublishWant(n, snap, Some(Entry(n, m.gen, snap, c.at)), false))
      else To(m, LoadPublishWant(n, snap, None, c.failed))
    case LoadPublishWant(n, snap, got, failed) => To(m, LoadPublish(n, snap, got, failed))
    case LoadPublish(n, snap, got, failed) => To(m, LoadStore(n, snap, got, failed, sh.epoch == snap))
    case LoadStore(n, snap, got, failed, clean) =>
      To(m.(sh := StoreLoaded(sh, n, got, failed, clean)), if got.Some? then Anchor(got.value) else Idle)
    case _ => None
  }

  /** `pend`: what an invalidation under way has still to clear. */
  function ScanStep(m: Mem, t: Tid, pc: Pc, c: Choice, pend: Option<Scope>): Option<Act> {
    var sh := m.sh;
    match pc
    case ScanSnap => To(m, ScanLoad(sh.epoch, pend, m.clock))
    case ScanLoad(snap, p, since) =>
      if c.Listing? && (forall n :: n in c.rows ==> since <= c.rows[n] <= m.clock) then
        To(m, ScanHaveWant(snap, p, c.rows))
      else if c.ListingFailed? then To(m, Idle)
      else None
    case ScanHaveWant(snap, p, listing) => To(m, ScanHave(snap, p, listing))
    case ScanHave(snap, p, listing) => To(m, ScanNamesWant(snap, p, listing, sh.entries.Keys))
    case ScanNamesWant(snap, p, listing, have) => To(m, ScanEntryWant(snap, p, listing, have))
    case ScanEntryWant(snap, p, listing, have) => To(m, ScanEpoch(snap, p, listing, have))
    case ScanEpoch(snap, p, listing, have) => To(m, ScanFill(snap, p, listing, have, sh.epoch == snap))
    case ScanFill(snap, p, listing, have, clean) =>
      To(m.(sh := Fill(sh, listing, have, snap, m.gen, clean), gen := m.gen + 1),
         ScanCallback(snap, p, listing, {}, Listed(sh, listing, have, snap, m.gen, clean)))
    case ScanCallback(snap, p, listing, done, todo) =>
      if todo == {} then To(m, ScanPublishWant(snap, p, listing, done))
      else if c.Next? && c.e in todo then To(Keep(m, t, c.e), ScanHand(snap, p, listing, done, todo, c.e))
      else None
    case ScanHand(snap, p, listing, done, todo, e) => To(m, ScanCallback(snap, p, listing, done + {e}, todo - {e}))
    case ScanPublishWant(snap, p, listing, done) => To(m, ScanCompare(snap, p, listing, done))
    case ScanCompare(snap, p, listing, done) =>
      To(m, if sh.epoch == snap then ScanStoreNames(snap, p, listing, done) else Idle)
    case ScanStoreNames(snap, p, listing, done) =>
      To(m.(sh := sh.(namesLoaded := true), published := m.published + Spared(listing.Keys, p)),
         ScanStoreFully(snap, p, listing, done))
    case ScanStoreFully(_, _, _, _) => To(m.(sh := sh.(fully := true)), Idle)
    case _ => None
  }

  function InvalidateStep(m: Mem, t: Tid, pc: Pc, c: Choice): Option<Act> {
    var sh := m.sh;
    match pc
    case InvWant(scope) => To(m, InvBump(scope))
    case InvBump(scope) =>
      To(m.(sh := sh.(epoch := sh.epoch + 1), bumpClock := m.bumpClock + [m.clock]), InvLowerFully(scope, sh.epoch + 1))
    case InvLowerFully(scope, e) => To(m.(sh := sh.(fully := false), published := {}), InvLowerNames(scope, e))
    case InvLowerNames(scope, e) => To(m.(sh := sh.(namesLoaded := false)), InvEntryWant(scope, e))
    case InvEntryWant(scope, e) => To(m, InvEntryClear(scope, e))
    case InvEntryClear(scope, e) =>
      To(m.(sh := ClearEntries(sh, scope),
            clearedAll := if scope.All? then e else m.clearedAll,
            clearedName := if scope.One? then m.clearedName[scope.name := e] else m.clearedName),
         InvNamesWant(scope, e))
    case InvNamesWant(scope, e) => To(m, InvNamesClear(scope, e))
    case InvNamesClear(scope, e) => To(m.(sh := ClearNames(sh, scope)), Idle)
    case _ => None
  }

  predicate InGet(pc: Pc) {
    pc.GetWant? || pc.GetLook? || pc.GetFully? || pc.GetFilter? || pc.NegWant? || pc.NegStore? || pc.GetFlag?
    || pc.NamesWant? || pc.NamesLook? || pc.NamesNegWant? || pc.NamesNegStore? || pc.RelookWant? || pc.Relook?
    || pc.Anchor? || pc.Return?
  }

  predicate InLoad(pc: Pc) {
    pc.LoadWant? || pc.LoadEnter? || pc.LoadWaiting? || pc.LoadFetch? || pc.LoadPublishWant? || pc.LoadPublish?
    || pc.LoadStore?
  }

  predicate InScan(pc: Pc) {
    pc.ScanSnap? || pc.ScanLoad? || pc.ScanHaveWant? || pc.ScanHave? || pc.ScanNamesWant? || pc.ScanEntryWant?
    || pc.ScanEpoch? || pc.ScanFill? || pc.ScanCallback? || pc.ScanHand? || pc.ScanPublishWant? || pc.ScanCompare?
    || pc.ScanStoreNames? || pc.ScanStoreFully?
  }

  /** One atomic action of a thread at `pc`, mutexes aside. */
  function Step(m: Mem, t: Tid, pc: Pc, c: Choice, pend: Option<Scope>): Option<Act> {
    if pc.Idle? then Begin(m, t, c)
    else if InGet(pc) then GetStep(m, t, pc, c)
    else if InLoad(pc) then LoadStep(m, t, pc, c)
    else if InScan(pc) then ScanStep(m, t, pc, c, pend)
    else InvalidateStep(m, t, pc, c)
  }

  /** The mutexes after thread `t` went from holding `before` to holding `after`. */
  function Relock(locks: map<Lock, Tid>, t: Tid, before: set<Lock>, after: set<Lock>): map<Lock, Tid> {
    map l | l in locks.Keys + after && (l in after || l !in before) :: if l in after then t else locks[l]
  }

  /** Thread `t` takes its next step; disabled while a mutex the step takes is held. An entry that has lost its last
      owner is freed, for good. */
  function Do(s: State, t: Tid, c: Choice): Option<State> {
    var pc := PcOf(s, t);
    var act := Step(s.mem, t, pc, c, PendingOf(s));
    if act.None? then None
    else
      var before, after := Holds(pc), Holds(act.value.pc);
      if exists l :: l in after && l !in before && l in s.locks then None
      else
        var procs := s.procs[t := act.value.pc];
        Some(State(act.value.mem, Relock(s.locks, t, before, after), procs,
                   s.freed + (Owned(s.mem, s.procs) - Owned(act.value.mem, procs))))
  }

  /** A thread's step, or a change of the schema on the server. */
  datatype Event = Tick | By(t: Tid, c: Choice)

  function Apply(s: State, ev: Event): Option<State> {
    match ev
    case Tick => Some(s.(mem := s.mem.(clock := s.mem.clock + 1)))
    case By(t, c) => Do(s, t, c)
  }

  /** `states[k + 1]` is what `events[k]` makes of `states[k]`, from the empty table set on. */
  ghost predicate Run(states: seq<State>, events: seq<Event>) {
    |states| == |events| + 1 && states[0] == Init
    && forall k :: 0 <= k < |events| ==> Apply(states[k], events[k]) == Some(states[k + 1])
  }
}
