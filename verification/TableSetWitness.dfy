/** What a scan that reads the epoch in the middle of an invalidation can do, from any state of any run: it raises both
    flags over containers that miss what the invalidation clears. */
module TableSetWitness {
  import opened Staging
  import opened TableSet
  import opened TableSetSafety
  import opened TableSetRuns
  import opened TableSetOwners
  import opened TableSetSteering

  /** What both threads do, written out on the memory: the scan lists `n` alone. */
  datatype Plan = Plan(scene: Scene, scope: Scope, e: nat, n: Name, early: bool)

  /** Where the invalidation waits while the scan fills: before its first clear, or before its last. */
  function Station(x: Plan): Pc { if x.early then InvEntryWant(x.scope, x.e) else InvNamesWant(x.scope, x.e) }

  function Row(x: Plan, m: Mem): map<Name, nat> { map[x.n := m.clock] }

  function Filled(x: Plan, m: Mem): Mem { m.(sh := Fill(m.sh, Row(x, m), m.sh.entries.Keys, x.e, m.gen, true), gen := m.gen + 1) }

  /** The entry the scan lists. */
  function Picked(x: Plan, m: Mem): Entry {
    if x.n in m.sh.entries then m.sh.entries[x.n] else Entry(x.n, m.gen, x.e, m.clock)
  }

  function Wiped(x: Plan, m: Mem): Mem {
    m.(sh := ClearEntries(m.sh, x.scope),
       clearedAll := if x.scope.All? then x.e else m.clearedAll,
       clearedName := if x.scope.One? then m.clearedName[x.scope.name := x.e] else m.clearedName)
  }

  function Forgotten(x: Plan, m: Mem): Mem { m.(sh := ClearNames(m.sh, x.scope)) }

  function Raised(x: Plan, m: Mem, rows: map<Name, nat>): Mem {
    m.(sh := m.sh.(namesLoaded := true, fully := true), published := m.published + Spared(rows.Keys, Some(x.scope)))
  }

  predicate PlanOk(x: Plan, m: Mem) { m.sh.epoch == x.e && Covers(x.scope, x.n) }

  lemma StationHolds(x: Plan)
    ensures Holds(Station(x)) == {LoadMutex} && !Station(x).ScanSnap? && Pending(Station(x))
  {
  }

  lemma OneListed(x: Plan, m: Mem)
    ensures Listed(m.sh, Row(x, m), m.sh.entries.Keys, x.e, m.gen, true) == {Picked(x, m)}
  {
    var filled := Fill(m.sh, Row(x, m), m.sh.entries.Keys, x.e, m.gen, true).entries;
    assert filled[x.n] == Picked(x, m);
  }

  /** The scan loads its listing. */
  lemma Lists(x: Plan, m: Mem, since: nat)
    requires SceneOk(x.scene) && PlanOk(x, m) && since <= m.clock
    requires Stage(x.scene, m, ScanLoad(x.e, Some(x.scope), since), Station(x))
    ensures Stage(x.scene, m, ScanNamesWant(x.e, Some(x.scope), Row(x, m), m.sh.entries.Keys), Station(x))
  {
    hide Stage, Station, SceneOk, PlanOk;
    StationHolds(x);
    var k, p, q, rows := x.scene, Some(x.scope), Station(x), Row(x, m);
    ScanMoves(k, m, ScanLoad(x.e, p, since), q, Listing(rows), m, ScanHaveWant(x.e, p, rows));
    ScanMoves(k, m, ScanHaveWant(x.e, p, rows), q, Go, m, ScanHave(x.e, p, rows));
    ScanMoves(k, m, ScanHave(x.e, p, rows), q, Go, m, ScanNamesWant(x.e, p, rows, m.sh.entries.Keys));
  }

  /** It finds the epoch unmoved. */
  lemma FindsClean(x: Plan, m: Mem, rows: map<Name, nat>, have: set<Name>)
    requires SceneOk(x.scene) && PlanOk(x, m)
    requires Stage(x.scene, m, ScanNamesWant(x.e, Some(x.scope), rows, have), Station(x))
    ensures Stage(x.scene, m, ScanFill(x.e, Some(x.scope), rows, have, true), Station(x))
  {
    hide Stage, Station, SceneOk;
    StationHolds(x);
    var k, p, q := x.scene, Some(x.scope), Station(x);
    ScanMoves(k, m, ScanNamesWant(x.e, p, rows, have), q, Go, m, ScanEntryWant(x.e, p, rows, have));
    ScanMoves(k, m, ScanEntryWant(x.e, p, rows, have), q, Go, m, ScanEpoch(x.e, p, rows, have));
    ScanMoves(k, m, ScanEpoch(x.e, p, rows, have), q, Go, m, ScanFill(x.e, p, rows, have, true));
  }

  /** It fills the containers. */
  lemma Fills(x: Plan, m: Mem)
    requires SceneOk(x.scene)
    requires Stage(x.scene, m, ScanFill(x.e, Some(x.scope), Row(x, m), m.sh.entries.Keys, true), Station(x))
    ensures Stage(x.scene, Filled(x, m), ScanCallback(x.e, Some(x.scope), Row(x, m), {}, {Picked(x, m)}), Station(x))
  {
    OneListed(x, m);
    hide Stage, Station, SceneOk, Listed, Fill, Row, Picked;
    StationHolds(x);
    ScanMoves(x.scene, m, ScanFill(x.e, Some(x.scope), Row(x, m), m.sh.entries.Keys, true), Station(x), Go,
              Filled(x, m), ScanCallback(x.e, Some(x.scope), Row(x, m), {}, {Picked(x, m)}));
  }

  /** It anchors the entry and hands it to its callback. */
  lemma CallsBack(x: Plan, m: Mem, rows: map<Name, nat>, a: Entry)
    requires SceneOk(x.scene) && Stage(x.scene, m, ScanCallback(x.e, Some(x.scope), rows, {}, {a}), Station(x))
    ensures Stage(x.scene, Keep(m, x.scene.t, a), ScanPublishWant(x.e, Some(x.scope), rows, {a}), Station(x))
  {
    hide Stage, Station, SceneOk, Keep;
    StationHolds(x);
    var k, p, q, m' := x.scene, Some(x.scope), Station(x), Keep(m, x.scene.t, a);
    ScanMoves(k, m, ScanCallback(x.e, p, rows, {}, {a}), q, Next(a), m', ScanHand(x.e, p, rows, {}, {a}, a));
    assert {} + {a} == {a} && {a} - {a} == {};
    ScanMoves(k, m', ScanHand(x.e, p, rows, {}, {a}, a), q, Go, m', ScanCallback(x.e, p, rows, {a}, {}));
    ScanMoves(k, m', ScanCallback(x.e, p, rows, {a}, {}), q, Go, m', ScanPublishWant(x.e, p, rows, {a}));
  }

  /** The invalidation clears the entries, if it has not yet. */
  lemma WipesEntries(x: Plan, m: Mem, scan: Pc)
    requires SceneOk(x.scene) && scan.ScanPublishWant? && Stage(x.scene, m, scan, Station(x))
    ensures Stage(x.scene, if x.early then Wiped(x, m) else m, scan, InvNamesWant(x.scope, x.e))
  {
    hide Stage, SceneOk, ClearEntries;
    if x.early {
      InvalidationMoves(x.scene, m, scan, InvEntryWant(x.scope, x.e), Go, m, InvEntryClear(x.scope, x.e));
      InvalidationMoves(x.scene, m, scan, InvEntryClear(x.scope, x.e), Go, Wiped(x, m), InvNamesWant(x.scope, x.e));
    }
  }

  /** It clears the names, and is done. */
  lemma WipesNames(x: Plan, m: Mem, scan: Pc)
    requires SceneOk(x.scene) && scan.ScanPublishWant? && Stage(x.scene, m, scan, InvNamesWant(x.scope, x.e))
    ensures Stage(x.scene, Forgotten(x, m), scan, Idle)
  {
    hide Stage, SceneOk, ClearNames;
    InvalidationMoves(x.scene, m, scan, InvNamesWant(x.scope, x.e), Go, m, InvNamesClear(x.scope, x.e));
    InvalidationMoves(x.scene, m, scan, InvNamesClear(x.scope, x.e), Go, Forgotten(x, m), Idle);
  }

  /** And the scan, whose snapshot is still the epoch, raises the flags. */
  lemma Raises(x: Plan, m: Mem, rows: map<Name, nat>, done: set<Entry>)
    requires SceneOk(x.scene) && PlanOk(x, m) && Stage(x.scene, m, ScanPublishWant(x.e, Some(x.scope), rows, done), Idle)
    ensures Stage(x.scene, Raised(x, m, rows), Idle, Idle)
  {
    hide Stage, SceneOk, Spared;
    var k, p := x.scene, Some(x.scope);
    ScanMoves(k, m, ScanPublishWant(x.e, p, rows, done), Idle, Go, m, ScanCompare(x.e, p, rows, done));
    ScanMoves(k, m, ScanCompare(x.e, p, rows, done), Idle, Go, m, ScanStoreNames(x.e, p, rows, done));
    var half := m.(sh := m.sh.(namesLoaded := true), published := m.published + Spared(rows.Keys, p));
    ScanMoves(k, m, ScanStoreNames(x.e, p, rows, done), Idle, Go, half, ScanStoreFully(x.e, p, rows, done));
    ScanMoves(k, half, ScanStoreFully(x.e, p, rows, done), Idle, Go, Raised(x, m, rows), Idle);
  }

  /** The memory when both are done. */
  function Ended(x: Plan, m: Mem): Mem {
    var kept := Keep(Filled(x, m), x.scene.t, Picked(x, m));
    Raised(x, Forgotten(x, if x.early then Wiped(x, kept) else kept), Row(x, m))
  }

  lemma Plays(x: Plan, m: Mem, since: nat)
    requires SceneOk(x.scene) && PlanOk(x, m) && since <= m.clock
    requires Stage(x.scene, m, ScanLoad(x.e, Some(x.scope), since), Station(x))
    ensures Stage(x.scene, Ended(x, m), Idle, Idle)
  {
    hide Stage, SceneOk, Station, Row, Filled, Picked, Raised, Forgotten, Wiped, Keep;
    var rows, a := Row(x, m), Picked(x, m);
    Lists(x, m, since);
    FindsClean(x, m, rows, m.sh.entries.Keys);
    Fills(x, m);
    CallsBack(x, Filled(x, m), rows, a);
    var kept := Keep(Filled(x, m), x.scene.t, a);
    var scan := ScanPublishWant(x.e, Some(x.scope), rows, {a});
    WipesEntries(x, kept, scan);
    var wiped := if x.early then Wiped(x, kept) else kept;
    WipesNames(x, wiped, scan);
    EpochStays(x, m);
    Raises(x, Forgotten(x, wiped), rows, {a});
  }

  lemma EpochStays(x: Plan, m: Mem)
    ensures var kept := Keep(Filled(x, m), x.scene.t, Picked(x, m));
            Forgotten(x, if x.early then Wiped(x, kept) else kept).sh.epoch == m.sh.epoch
  {
    hide Picked;
  }

  /** Both flags are up after thread `t` has listed `n`, and the names do not hold it; when the entries were still to be
      cleared at the snapshot, neither do they. An invalidation of everything leaves the containers empty. */
  ghost predicate FlagsOverNothing(m: Mem, t: Tid, scope: Scope, n: Name, early: bool) {
    && m.sh.namesLoaded && m.sh.fully && n !in m.sh.known && (early ==> n !in m.sh.entries)
    && (scope.All? ==> m.sh.known == {} && (early ==> m.sh.entries == map[]))
    && exists a :: a in AnchorsOf(m, t) && a.name == n
  }

  lemma EndsOverNothing(x: Plan, m: Mem)
    requires Covers(x.scope, x.n) && EntriesOk(m)
    ensures FlagsOverNothing(Ended(x, m), x.scene.t, x.scope, x.n, x.early)
  {
    hide Cleared;
    var a := Picked(x, m);
    assert a.name == x.n by { if x.n in m.sh.entries { assert EntryOk(m, x.n, m.sh.entries[x.n]); } }
    assert a in AnchorsOf(Ended(x, m), x.scene.t);
  }

  // ---------------------------------------------------------------- from any state

  lemma InvalidationWaits(s0: State, s: State, t: Tid, u: Tid, p: Pc) returns (s': State)
    requires Leads(s0, s) && Inv(s) && t != u && PcOf(s, t) == p && p.ScanLoad? && Pending(PcOf(s, u))
    ensures var q := PcOf(s, u);
            Waiting(s0, s', t, u, p, if q.InvEntryClear? || q.InvNamesWant? then InvNamesWant(q.scope, q.epoch) else InvEntryWant(q.scope, q.epoch))
            && s'.mem.sh.epoch == s.mem.sh.epoch
    decreases if PcOf(s, u).InvLowerFully? then 2 else if PcOf(s, u).InvLowerNames? || PcOf(s, u).InvEntryClear? then 1 else 0
  {
    s' := s;
    var q := PcOf(s, u);
    if q.InvEntryWant? || q.InvNamesWant? { return; }
    var pend := PendingOf(s);
    PendingMoves(s.mem, u, q, pend);
    hide Do, Step, Inv, Leads, PcOf, PendingOf, ThreadOk;
    CanMove(s, u, Go);
    s' := Do(s, u, Go).value;
    DoIs(s, u, Go);
    StepKeepsInv(s, u, Go);
    LeadsOn(s0, s, By(u, Go), s');
    assert ThreadOk(s.mem, u, q) by { ThreadOf(s, u); }
    StepGuarantees(s.mem, u, q, Go, pend);
    s' := InvalidationWaits(s0, s', t, u, p);
  }

  lemma PendingMoves(m: Mem, u: Tid, q: Pc, pend: Option<Scope>)
    requires q.InvLowerFully? || q.InvLowerNames? || q.InvEntryClear?
    ensures Step(m, u, q, Go, pend).Some?
    ensures var q' := Step(m, u, q, Go, pend).value.pc;
            Holds(q') <= Holds(q)
            && q' == if q.InvLowerFully? then InvLowerNames(q.scope, q.epoch)
                     else if q.InvLowerNames? then InvEntryWant(q.scope, q.epoch) else InvNamesWant(q.scope, q.epoch)
  {
    hide ClearEntries;
  }

  lemma SnapshotTaken(s: State, t: Tid, u: Tid) returns (s': State)
    requires Inv(s) && PcOf(s, t).ScanSnap? && Pending(PcOf(s, u))
    ensures Apply(s, By(t, Go)) == Some(s') && Inv(s') && t != u && PcOf(s', u) == PcOf(s, u)
    ensures PcOf(s', t) == ScanLoad(s.mem.sh.epoch, Some(PcOf(s, u).scope), s.mem.clock) && s'.mem == s.mem
    ensures forall w: Tid :: w != t ==> PcOf(s', w) == PcOf(s, w)
  {
    assert PendingOf(s) == Some(PcOf(s, u).scope) by {
      PendingIsPast(PcOf(s, u));
      SnapshotKnows(s, u);
    }
    SnapStep(s.mem, t, PendingOf(s));
    hide Do, Step, Inv, PcOf, PendingOf, Pending;
    CanMove(s, t, Go);
    s' := Do(s, t, Go).value;
    DoIs(s, t, Go);
    StepKeepsInv(s, t, Go);
  }

  lemma PendingIsPast(pc: Pc)
    requires Pending(pc)
    ensures PostBump(pc) && !pc.InvNamesClear?
  {
  }

  lemma SnapStep(m: Mem, t: Tid, pend: Option<Scope>)
    ensures Step(m, t, ScanSnap, Go, pend) == Some(Act(ScanLoad(m.sh.epoch, pend, m.clock), m)) && Holds(ScanLoad(m.sh.epoch, pend, m.clock)) == {}
  {
  }

  /** The converse of what a snapshot decides: in whatever state of whatever run a scan reads the epoch while an
      invalidation is past its bump and short of its last clear, and whatever name that invalidation covers, the run
      can go on so that the scan lists the name, and both flags are up over containers that do not hold it. */
  lemma SnapshotInsideBreaksFlags(s: State, t: Tid, u: Tid, n: Name)
    requires Leads(Init, s) && PcOf(s, t).ScanSnap? && Pending(PcOf(s, u)) && Covers(PcOf(s, u).scope, n)
    ensures Apply(s, By(t, Go)).Some?
    ensures var q := PcOf(s, u); var early := !q.InvEntryClear? && !q.InvNamesWant?;
            exists s': State :: Leads(Apply(s, By(t, Go)).value, s') && FlagsOverNothing(s'.mem, t, q.scope, n, early)
  {
    ReachableInv(s);
    var s1 := SnapshotTaken(s, t, u);
    var q := PcOf(s, u);
    var m, early := s.mem, !q.InvEntryClear? && !q.InvNamesWant?;
    LeadsNowhere(s1);
    var p := PcOf(s1, t);
    assert q.epoch == m.sh.epoch by { PendingEpoch(s, u); }
    var s2 := InvalidationWaits(s1, s1, t, u, p);
    var station := if early then InvEntryWant(q.scope, q.epoch) else InvNamesWant(q.scope, q.epoch);
    var s3 := Settle(s1, s2, t, u, p, station);
    Enter(s1, s3, t, u, p, station);
    hide Leads, Inv, Stage, SceneOk, FlagsOverNothing, Apply, Ended, PcOf, Quiet;
    var x := Plan(Scene(s1, s3, t, u), q.scope, q.epoch, n, early);
    SinceBefore(s3, t);
    Plays(x, s3.mem, p.since);
    Closes(x, Ended(x, s3.mem));
    EntriesOf(s3);
    EndsOverNothing(x, s3.mem);
  }

  lemma EntriesOf(s: State)
    requires Inv(s)
    ensures EntriesOk(s.mem)
  {
    hide EntriesOk, LocksOk, ThreadsOk, SeenOk, SlotsOk;
  }

  lemma PendingEpoch(s: State, u: Tid)
    requires Inv(s) && Pending(PcOf(s, u))
    ensures PcOf(s, u).epoch == s.mem.sh.epoch
  {
    ThreadOf(s, u);
    hide Inv, PcOf;
  }

  lemma SinceBefore(s: State, t: Tid)
    requires Inv(s) && PcOf(s, t).ScanLoad?
    ensures PcOf(s, t).since <= s.mem.clock
  {
    ThreadOf(s, t);
    hide Inv, PcOf;
  }

  lemma Closes(x: Plan, m: Mem)
    requires Stage(x.scene, m, Idle, Idle)
    ensures exists s': State :: Leads(x.scene.start, s') && s'.mem == m
  {
    hide Leads, LocksOk, PcOf;
  }

  // ---------------------------------------------------------------- one such run

  const STAGE := Scene(Init, Init, 1, 0)

  lemma StageOk()
    ensures SceneOk(STAGE)
  {
  }

  lemma Nobody()
    ensures Stage(STAGE, Init.mem, Idle, Idle)
  {
    hide Leads;
    LeadsNowhere(Init);
    assert At(STAGE, Init, Init.mem, Idle, Idle);
  }

  function Bumped(m: Mem): Mem { m.(sh := m.sh.(epoch := m.sh.epoch + 1), bumpClock := m.bumpClock + [m.clock]) }

  function Lowered(m: Mem): Mem { m.(sh := m.sh.(fully := false, namesLoaded := false), published := {}) }

  /** Thread 0 begins to invalidate everything, and thread 1 to scan. */
  lemma Begins(m: Mem)
    requires Stage(STAGE, m, Idle, Idle)
    ensures Stage(STAGE, m, ScanSnap, InvBump(All))
  {
    StageOk();
    hide Stage, SceneOk;
    ScanMoves(STAGE, m, Idle, Idle, Choice.Scan, m, ScanSnap);
    InvalidationMoves(STAGE, m, ScanSnap, Idle, Choice.Invalidate(All), m, InvWant(All));
    InvalidationMoves(STAGE, m, ScanSnap, InvWant(All), Go, m, InvBump(All));
  }

  lemma Lowers(m: Mem)
    requires m.sh.epoch == 0 && Stage(STAGE, m, ScanSnap, InvBump(All))
    ensures Stage(STAGE, Lowered(Bumped(m)), ScanSnap, InvEntryWant(All, 1))
  {
    StageOk();
    hide Stage, SceneOk;
    var b := Bumped(m);
    InvalidationMoves(STAGE, m, ScanSnap, InvBump(All), Go, b, InvLowerFully(All, 1));
    var half := b.(sh := b.sh.(fully := false), published := {});
    InvalidationMoves(STAGE, b, ScanSnap, InvLowerFully(All, 1), Go, half, InvLowerNames(All, 1));
    InvalidationMoves(STAGE, half, ScanSnap, InvLowerNames(All, 1), Go, Lowered(b), InvEntryWant(All, 1));
  }

  lemma SnapshotOnStage(x: Scene, m: Mem, q: Pc)
    requires x.start == Init && SceneOk(x) && Stage(x, m, ScanSnap, q) && Pending(q)
    ensures Stage(x, m, ScanLoad(m.sh.epoch, Some(q.scope), m.clock), q)
  {
    hide Leads, Inv, PcOf, LocksOk, Apply, SceneOk;
    var s :| Leads(Init, s) && At(x, s, m, ScanSnap, q);
    ReachableInv(s);
    var s' := SnapshotTaken(s, x.t, x.u);
    LeadsOn(Init, s, By(x.t, Go), s');
    LocksOf(s');
    assert At(x, s', m, ScanLoad(m.sh.epoch, Some(q.scope), m.clock), q);
  }

  lemma LocksOf(s: State)
    requires Inv(s)
    ensures LocksOk(s)
  {
    hide LocksOk, ThreadsOk, SeenOk, SlotsOk, MemOk;
  }

  const ORDERS := Plan(STAGE, All, 1, "orders", true)

  /** The state it ends in: nobody active, and what the scan anchored. */
  lemma EndOfOneRun() returns (s: State)
    ensures Leads(Init, s) && (forall t: Tid :: PcOf(s, t) == Idle) && s.mem == Ended(ORDERS, Lowered(Bumped(Init.mem)))
  {
    var m := Lowered(Bumped(Init.mem));
    StageOk();
    Nobody();
    Begins(Init.mem);
    Lowers(Init.mem);
    SnapshotOnStage(STAGE, m, InvEntryWant(All, 1));
    hide Stage, SceneOk, Ended;
    Plays(ORDERS, m, m.clock);
    s := OnStage(STAGE, Ended(ORDERS, m));
  }

  lemma OnStage(x: Scene, m: Mem) returns (s: State)
    requires x == STAGE && Stage(x, m, Idle, Idle)
    ensures Leads(Init, s) && (forall t: Tid :: PcOf(s, t) == Idle) && s.mem == m
  {
    hide Leads, LocksOk;
    s :| Leads(x.start, s) && At(x, s, m, Idle, Idle);
    forall t: Tid ensures PcOf(s, t) == Idle {}
  }

  /** A reachable state in which a scan has just listed and handed out a table, nothing has been invalidated since it
      raised the flags, and neither container knows any table. */
  lemma FlagsOverEmptyContainers()
    ensures exists s: State ::
              Leads(Init, s) && s.mem.sh.fully && s.mem.sh.namesLoaded && s.mem.sh.entries == map[] && s.mem.sh.known == {}
              && AnchorsOf(s.mem, 1) != {}
  {
    var s := EndOfOneRun();
    EndsOverNothing(ORDERS, Lowered(Bumped(Init.mem)));
    hide Leads, Ended, AnchorsOf;
  }

  /** In that state the anchors alone keep the entry, which the cache has dropped: it is not freed, and the end of the
      query frees it. */
  lemma AnchorsOutliveTheCache()
    ensures exists s: State, e: Entry ::
              Leads(Init, s) && e in AnchorsOf(s.mem, 1) && s.mem.sh.entries == map[] && e !in s.freed
              && Apply(s, By(1, QueryEnd)).Some? && e in Apply(s, By(1, QueryEnd)).value.freed
  {
    var s := EndOfOneRun();
    var m := Lowered(Bumped(Init.mem));
    EndsOverNothing(ORDERS, m);
    var e := Picked(ORDERS, m);
    OnlyAnchor(m);
    assert s.mem.sh.entries == map[] && e in AnchorsOf(s.mem, 1);
    hide Leads, Ended, Apply, Picked, FlagsOverNothing;
    EndsQuery(s, e);
  }

  lemma OnlyAnchor(m: Mem)
    requires m.anchors == map[]
    ensures Ended(ORDERS, m).anchors == map[1 := {Picked(ORDERS, m)}]
  {
    hide Picked, Fill, Row;
    var a := Picked(ORDERS, m);
    assert AnchorsOf(Filled(ORDERS, m), 1) == {} && {} + {a} == {a};
    assert Ended(ORDERS, m).anchors == Keep(Filled(ORDERS, m), 1, a).anchors;
  }

  lemma EndsQuery(s: State, e: Entry)
    requires Leads(Init, s) && (forall t: Tid :: PcOf(s, t) == Idle) && s.mem.sh.entries == map[] && s.mem.anchors == map[1 := {e}]
    ensures e !in s.freed && Apply(s, By(1, QueryEnd)).Some? && e in Apply(s, By(1, QueryEnd)).value.freed
  {
    var states, events := RunOf(s);
    RunsKeepLive(states, events, |events|);
    assert e in AnchorsOf(s.mem, 1);
    AnchoredIsOwned(s.mem, s.procs, 1, e);
    QueryEnds(s.mem, PendingOf(s));
    hide Owned, PendingOf, Leads, Run, Step, Do;
    CanMove(s, 1, QueryEnd);
    var s' := Do(s, 1, QueryEnd).value;
    DoIs(s, 1, QueryEnd);
    NobodyOwns(s', e);
    FreesUnowned(s, By(1, QueryEnd), e);
  }

  lemma QueryEnds(m: Mem, pend: Option<Scope>)
    ensures Step(m, 1, Idle, QueryEnd, pend) == Some(Act(Idle, m.(anchors := m.anchors[1 := {}]))) && Holds(Idle) == {}
  {
  }

  lemma NobodyOwns(s: State, e: Entry)
    requires (forall t: Tid :: PcOf(s, t) == Idle) && s.mem.sh.entries == map[] && s.mem.anchors == map[1 := {}]
    ensures e !in Owned(s.mem, s.procs)
  {
    OwnedIs(s.mem, s.procs, e);
    hide Owned;
    forall t: Tid | t in s.procs ensures e !in Refs(s.procs[t]) { assert PcOf(s, t) == Idle; }
  }
}
