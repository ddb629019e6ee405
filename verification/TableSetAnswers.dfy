/** What the table-set cache answers, over every run: which entries a scan hands to its callback, and what `GetEntry`
    hands out and why (src/catalog/mssql_table_set.cpp:36-122, 124-267, 278-370). */
module TableSetAnswers {
  import opened Staging
  import opened TableSet
  import opened TableSetSafety
  import opened TableSetRuns
  import opened TableSetTheorems

  // ---------------------------------------------------------------- a thread's steps in a run

  /** The event at `k` is a step of thread `t`. */
  predicate Steps(events: seq<Event>, k: int, t: Tid) { 0 <= k < |events| && events[k].By? && events[k].t == t }

  lemma OneStep(states: seq<State>, events: seq<Event>, k: nat, t: Tid)
    requires Run(states, events) && k < |events|
    ensures if Steps(events, k, t) then
              Step(states[k].mem, t, PcOf(states[k], t), events[k].c, PendingOf(states[k]))
              == Some(Act(PcOf(states[k + 1], t), states[k + 1].mem))
            else PcOf(states[k + 1], t) == PcOf(states[k], t)
  {
    assert Apply(states[k], events[k]) == Some(states[k + 1]);
    if events[k].By? {
      DoIs(states[k], events[k].t, events[k].c);
      hide *;
    } else {
      hide PcOf;
      TickMovesNobody(states[k], t);
    }
  }

  /** Strictly between `i` and `j`, thread `t` hands out `e`. */
  ghost predicate Handed(states: seq<State>, events: seq<Event>, i: nat, j: nat, t: Tid, e: Entry) {
    exists k :: i < k < j && HandsOutAt(states, events, k, t, e)
  }

  ghost predicate HandsOutAt(states: seq<State>, events: seq<Event>, k: int, t: Tid, e: Entry) {
    Steps(events, k, t) && k < |states| && HandsOut(PcOf(states[k], t)) == Some(e)
  }

  // ---------------------------------------------------------------- what a scan hands out

  predicate CallingBack(pc: Pc) { pc.ScanCallback? || pc.ScanHand? }

  lemma FillStep(m: Mem, t: Tid, pc: Pc, c: Choice, pend: Option<Scope>)
    requires pc.ScanFill?
    ensures var a := Step(m, t, pc, c, pend);
            a.Some? && CallingBack(a.value.pc) && a.value.pc.ScanCallback? && a.value.pc.done == {}
            && a.value.pc.todo == Listed(m.sh, pc.listing, pc.have, pc.snap, m.gen, pc.clean)
  {
    hide Fill, Listed;
  }

  lemma CallbackStep(m: Mem, t: Tid, pc: Pc, c: Choice, pend: Option<Scope>)
    requires pc.ScanCallback? && Step(m, t, pc, c, pend).Some?
    ensures var pc' := Step(m, t, pc, c, pend).value.pc;
            if pc.todo == {} then pc'.ScanPublishWant?
            else pc'.ScanHand? && pc'.e in pc.todo && pc'.todo == pc.todo && pc'.done == pc.done
  {
    hide Keep;
  }

  lemma HandStep(m: Mem, t: Tid, pc: Pc, c: Choice, pend: Option<Scope>)
    requires pc.ScanHand?
    ensures var a := Step(m, t, pc, c, pend);
            a.Some? && a.value.pc.ScanCallback? && a.value.pc.done == pc.done + {pc.e} && a.value.pc.todo == pc.todo - {pc.e}
  {
  }

  /** `all` is what has been handed out and what is still to be. */
  ghost predicate Progress(pc: Pc, all: set<Entry>) {
    CallingBack(pc) && pc.done + pc.todo == all && pc.done !! pc.todo && (pc.ScanHand? ==> pc.e in pc.todo)
  }

  lemma ProgressKept(m: Mem, t: Tid, pc: Pc, c: Choice, pend: Option<Scope>, all: set<Entry>)
    requires Progress(pc, all) && Step(m, t, pc, c, pend).Some?
    ensures var pc' := Step(m, t, pc, c, pend).value.pc;
            if pc.ScanHand? then Progress(pc', all) && pc'.done == pc.done + {pc.e}
            else if CallingBack(pc') then Progress(pc', all) && pc'.done == pc.done
            else pc.done == all
  {
    hide Step;
    if pc.ScanHand? { HandStep(m, t, pc, c, pend); } else { CallbackStep(m, t, pc, c, pend); }
  }

  lemma HandsOutIs(pc: Pc)
    requires CallingBack(pc)
    ensures HandsOut(pc) == if pc.ScanHand? then Some(pc.e) else None
  {
  }

  /** One more step in which nothing, or just `h`, is handed out. */
  lemma HandedNext(states: seq<State>, events: seq<Event>, i: nat, j: nat, t: Tid, e: Entry)
    requires i < j < |states|
    ensures Handed(states, events, i, j + 1, t, e) <==> Handed(states, events, i, j, t, e) || HandsOutAt(states, events, j, t, e)
  {
    hide HandsOutAt;
  }

  lemma {:induction false} HandedSoFar(states: seq<State>, events: seq<Event>, i: nat, j: nat, t: Tid, all: set<Entry>)
    requires Run(states, events) && i < j < |states| && Steps(events, i, t) && PcOf(states[i], t).ScanFill?
    requires var pc, m := PcOf(states[i], t), states[i].mem;
             all == Listed(m.sh, pc.listing, pc.have, pc.snap, m.gen, pc.clean)
    requires forall k :: i < k <= j ==> CallingBack(PcOf(states[k], t))
    ensures Progress(PcOf(states[j], t), all)
    ensures forall e :: e in PcOf(states[j], t).done <==> Handed(states, events, i, j, t, e)
  {
    hide Step, Listed, PcOf, PendingOf, Apply, HandsOut;
    var p := j - 1;
    OneStep(states, events, p, t);
    if p == i {
      FillStep(states[p].mem, t, PcOf(states[p], t), events[p].c, PendingOf(states[p]));
    } else {
      HandedSoFar(states, events, i, p, t, all);
      var pc := PcOf(states[p], t);
      HandsOutIs(pc);
      if Steps(events, p, t) { ProgressKept(states[p].mem, t, pc, events[p].c, PendingOf(states[p]), all); }
      hide Progress, CallingBack, Handed;
      forall e ensures e in PcOf(states[j], t).done <==> Handed(states, events, i, j, t, e) {
        HandedNext(states, events, i, p, t, e);
      }
    }
  }

  /** From pass C to the publication, a scan hands its callback exactly the entries it listed, each of them once. */
  lemma ScanHandsOut(states: seq<State>, events: seq<Event>, i: nat, j: nat, t: Tid)
    requires Run(states, events) && i < j < |states| && Steps(events, i, t) && PcOf(states[i], t).ScanFill?
    requires forall k :: i < k < j ==> CallingBack(PcOf(states[k], t))
    requires PcOf(states[j], t).ScanPublishWant?
    ensures var pc, m := PcOf(states[i], t), states[i].mem;
            forall e :: e in Listed(m.sh, pc.listing, pc.have, pc.snap, m.gen, pc.clean) <==> Handed(states, events, i, j, t, e)
    ensures forall k, h, e :: i < k < j && i < h < j && HandsOutAt(states, events, k, t, e) && HandsOutAt(states, events, h, t, e) ==> k == h
  {
    hide Step, Listed, PcOf, PendingOf, Apply, HandsOut, CallingBack, Handed, Progress;
    var pc, m, p := PcOf(states[i], t), states[i].mem, j - 1;
    var all := Listed(m.sh, pc.listing, pc.have, pc.snap, m.gen, pc.clean);
    OneStep(states, events, p, t);
    FillStep(states[i].mem, t, pc, events[i].c, PendingOf(states[i]));
    HandedSoFar(states, events, i, p, t, all);
    LastIsCallback(states, events, p, t, all);
    forall e ensures Handed(states, events, i, j, t, e) <==> Handed(states, events, i, p, t, e) {
      HandedNext(states, events, i, p, t, e);
    }
    forall k, h, e | i < k < j && i < h < j && HandsOutAt(states, events, k, t, e) && HandsOutAt(states, events, h, t, e) && k != h
      ensures false
    {
      if k < h { HandedOnce(states, events, i, k, h, t, e, all); } else { HandedOnce(states, events, i, h, k, t, e, all); }
    }
  }

  lemma LastIsCallback(states: seq<State>, events: seq<Event>, p: nat, t: Tid, all: set<Entry>)
    requires Run(states, events) && p + 1 < |states| && Progress(PcOf(states[p], t), all) && PcOf(states[p + 1], t).ScanPublishWant?
    ensures PcOf(states[p], t).done == all && forall e :: !HandsOutAt(states, events, p, t, e)
  {
    hide Step, PcOf, PendingOf, Apply, HandsOut;
    OneStep(states, events, p, t);
    HandsOutIs(PcOf(states[p], t));
    ProgressKept(states[p].mem, t, PcOf(states[p], t), events[p].c, PendingOf(states[p]), all);
  }

  lemma HandedOnce(states: seq<State>, events: seq<Event>, i: nat, k: nat, h: nat, t: Tid, e: Entry, all: set<Entry>)
    requires Run(states, events) && i < k < h < |states| && Steps(events, i, t) && PcOf(states[i], t).ScanFill?
    requires var pc, m := PcOf(states[i], t), states[i].mem;
             all == Listed(m.sh, pc.listing, pc.have, pc.snap, m.gen, pc.clean)
    requires forall g :: i < g <= h ==> CallingBack(PcOf(states[g], t))
    requires HandsOutAt(states, events, k, t, e)
    ensures !HandsOutAt(states, events, h, t, e)
  {
    hide PcOf, Listed, HandsOut, Run;
    HandedSoFar(states, events, i, h, t, all);
    HandsOutIs(PcOf(states[h], t));
    assert Handed(states, events, i, h, t, e);
  }

  // ---------------------------------------------------------------- what a scan carries along

  /** How far a scan has come. */
  function Stage(pc: Pc): nat {
    match pc
    case ScanLoad(_, _, _) => 1
    case ScanHaveWant(_, _, _) => 2
    case ScanHave(_, _, _) => 3
    case ScanNamesWant(_, _, _, _) => 4
    case ScanEntryWant(_, _, _, _) => 5
    case ScanEpoch(_, _, _, _) => 6
    case ScanFill(_, _, _, _, _) => 7
    case ScanCallback(_, _, _, _, _) => 8
    case ScanHand(_, _, _, _, _, _) => 8
    case ScanPublishWant(_, _, _, _) => 9
    case ScanCompare(_, _, _, _) => 10
    case ScanStoreNames(_, _, _, _) => 11
    case ScanStoreFully(_, _, _, _) => 12
    case _ => 0
  }

  /** What a scan has gathered is not lost on its way. */
  ghost predicate Carries(m: Mem, pc: Pc, c: Choice, pc': Pc) {
    && Stage(pc) <= Stage(pc') <= Stage(pc) + 1
    && (Stage(pc) == 1 ==> c.Listing? && Stage(pc') == 2 && pc'.listing == c.rows)
    && (2 <= Stage(pc) ==> pc'.listing == pc.listing)
    && (Stage(pc) == 3 ==> Stage(pc') == 4 && pc'.have == m.sh.entries.Keys)
    && (4 <= Stage(pc) && Stage(pc') <= 7 ==> pc'.have == pc.have)
    && (Stage(pc) == 6 ==> Stage(pc') == 7 && pc'.clean == (m.sh.epoch == pc.snap))
    && (Stage(pc) == 7 ==> Stage(pc') == 8)
  }

  lemma ScanCarries(m: Mem, t: Tid, pc: Pc, c: Choice, pend: Option<Scope>)
    requires Scanning(pc) && ScanStep(m, t, pc, c, pend).Some? && Scanning(ScanStep(m, t, pc, c, pend).value.pc)
    ensures Carries(m, pc, c, ScanStep(m, t, pc, c, pend).value.pc)
  {
    hide Fill, Listed, Keep;
  }

  lemma ScanIsScanStep(m: Mem, t: Tid, pc: Pc, c: Choice, pend: Option<Scope>)
    requires Scanning(pc)
    ensures Step(m, t, pc, c, pend) == ScanStep(m, t, pc, c, pend)
  {
    hide ScanStep, GetStep, LoadStep, InvalidateStep, Begin;
  }

  /** Thread `t` is in one and the same scan from `i` to `j`. */
  ghost predicate InOneScan(states: seq<State>, i: nat, j: nat, t: Tid) {
    j < |states| && forall k :: i <= k <= j ==> Scanning(PcOf(states[k], t))
  }

  lemma CarriesNow(states: seq<State>, events: seq<Event>, k: nat, t: Tid)
    requires Run(states, events) && k < |events| && Steps(events, k, t)
    requires Scanning(PcOf(states[k], t)) && Scanning(PcOf(states[k + 1], t))
    ensures Carries(states[k].mem, PcOf(states[k], t), events[k].c, PcOf(states[k + 1], t))
  {
    OneStep(states, events, k, t);
    hide *;
    ScanIsScanStep(states[k].mem, t, PcOf(states[k], t), events[k].c, PendingOf(states[k]));
    ScanCarries(states[k].mem, t, PcOf(states[k], t), events[k].c, PendingOf(states[k]));
  }

  lemma {:induction false} Carried(states: seq<State>, events: seq<Event>, i: nat, j: nat, t: Tid)
    requires Run(states, events) && i <= j && InOneScan(states, i, j, t)
    ensures var pc, pc' := PcOf(states[i], t), PcOf(states[j], t);
            Stage(pc) <= Stage(pc')
            && (2 <= Stage(pc) ==> pc'.listing == pc.listing)
            && (4 <= Stage(pc) && Stage(pc') <= 7 ==> pc'.have == pc.have)
            && (Stage(pc) == Stage(pc') && (Stage(pc) == 1 || Stage(pc) == 7) ==> pc' == pc)
  {
    hide Apply, PcOf, Scanning;
    if i < j {
      var p := j - 1;
      Carried(states, events, i, p, t);
      OneStep(states, events, p, t);
      if Steps(events, p, t) { CarriesNow(states, events, p, t); }
    }
  }

  // ---------------------------------------------------------------- a whole scan

  /** The moments of a scan of thread `t`: it reads the epoch at `h`, gets its listing at `l`, looks at the cache
      (pass A) at `a`, compares the epoch at `c`, fills (pass C) at `f`, and is done calling back at `j`. */
  ghost predicate WholeScan(states: seq<State>, events: seq<Event>, t: Tid, h: nat, l: nat, a: nat, c: nat, f: nat, j: nat) {
    && Run(states, events) && h < l < a < c < f < j < |states|
    && Steps(events, h, t) && PcOf(states[h], t).ScanSnap?
    && Steps(events, l, t) && PcOf(states[l], t).ScanLoad?
    && Steps(events, a, t) && PcOf(states[a], t).ScanHave?
    && Steps(events, c, t) && PcOf(states[c], t).ScanEpoch?
    && Steps(events, f, t) && PcOf(states[f], t).ScanFill?
    && PcOf(states[j], t).ScanPublishWant? && !PcOf(states[j - 1], t).ScanPublishWant?
    && InOneScan(states, h + 1, j, t)
  }

  /** What a scan should hand out for a listed name: the cached entry of a name that had one in pass A, if it still
      has; for the others a new entry, but on an unmoved epoch an entry cached meanwhile. */
  ghost predicate Expected(e: Entry, rows: map<Name, nat>, had: map<Name, Entry>, cached: map<Name, Entry>, clean: bool, epoch: nat, gen: nat) {
    var n := e.name;
    n in rows
    && if n in had then n in cached && e == cached[n]
       else if clean && n in cached then e == cached[n]
       else e == Entry(n, gen, epoch, rows[n])
  }

  lemma ListedIsExpected(m: Mem, rows: map<Name, nat>, had: map<Name, Entry>, clean: bool, epoch: nat, e: Entry)
    requires forall n :: n in m.sh.entries ==> m.sh.entries[n].name == n
    ensures e in Listed(m.sh, rows, had.Keys, epoch, m.gen, clean) <==> Expected(e, rows, had, m.sh.entries, clean, epoch, m.gen)
  {
    var built := Built(rows, had.Keys, epoch, m.gen);
    assert forall n :: n in built ==> built[n].name == n;
    if Expected(e, rows, had, m.sh.entries, clean, epoch, m.gen) {
      var n := e.name;
      if n !in had { assert n in built && (clean ==> (built + m.sh.entries)[n] == e); }
      if n in had { assert n !in built; }
    }
  }

  lemma EntriesNamed(states: seq<State>, events: seq<Event>, k: nat)
    requires Run(states, events) && k < |states|
    ensures forall n :: n in states[k].mem.sh.entries ==> states[k].mem.sh.entries[n].name == n
  {
    hide Run, LocksOk, ThreadsOk, SeenOk, SlotsOk, Cleared, BumpsOk, ClearsOk, Present;
    RunsKeepInv(states, events, k);
    forall n | n in states[k].mem.sh.entries ensures states[k].mem.sh.entries[n].name == n {
      assert EntryOk(states[k].mem, n, states[k].mem.sh.entries[n]);
    }
  }

  lemma StageOf(pc: Pc)
    ensures (pc.ScanLoad? <==> Stage(pc) == 1) && (pc.ScanHave? <==> Stage(pc) == 3) && (pc.ScanEpoch? <==> Stage(pc) == 6)
    ensures (pc.ScanFill? <==> Stage(pc) == 7) && (CallingBack(pc) <==> Stage(pc) == 8) && (pc.ScanPublishWant? <==> Stage(pc) == 9)
  {
  }

  lemma ListingAt(states: seq<State>, events: seq<Event>, l: nat, f: nat, t: Tid)
    requires Run(states, events) && l < f && Steps(events, l, t) && InOneScan(states, l, f, t) && PcOf(states[l], t).ScanLoad?
    ensures events[l].c.Listing? && Stage(PcOf(states[f], t)) >= 2 && PcOf(states[f], t).listing == events[l].c.rows
  {
    hide Run, PcOf, Scanning, Stage;
    StageOf(PcOf(states[l], t));
    CarriesNow(states, events, l, t);
    Carried(states, events, l + 1, f, t);
  }

  lemma HaveAt(states: seq<State>, events: seq<Event>, a: nat, f: nat, t: Tid)
    requires Run(states, events) && a < f && Steps(events, a, t) && InOneScan(states, a, f, t)
    requires PcOf(states[a], t).ScanHave? && PcOf(states[f], t).ScanFill?
    ensures PcOf(states[f], t).have == states[a].mem.sh.entries.Keys
  {
    hide Run, PcOf, Scanning, Stage;
    StageOf(PcOf(states[a], t));
    StageOf(PcOf(states[f], t));
    CarriesNow(states, events, a, t);
    Carried(states, events, a + 1, f, t);
  }

  lemma CleanAt(states: seq<State>, events: seq<Event>, c: nat, f: nat, t: Tid)
    requires Run(states, events) && c < f && Steps(events, c, t) && InOneScan(states, c, f, t)
    requires PcOf(states[c], t).ScanEpoch? && PcOf(states[f], t).ScanFill?
    ensures PcOf(states[f], t).clean == (states[c].mem.sh.epoch == PcOf(states[c], t).snap)
  {
    hide Run, PcOf, Scanning, Stage;
    StageOf(PcOf(states[c], t));
    StageOf(PcOf(states[f], t));
    CarriesNow(states, events, c, t);
    Carried(states, events, c + 1, f, t);
  }

  lemma CallsBack(states: seq<State>, events: seq<Event>, f: nat, k: nat, j: nat, t: Tid)
    requires Run(states, events) && f < k < j && Steps(events, f, t) && InOneScan(states, f, j, t)
    requires PcOf(states[f], t).ScanFill? && PcOf(states[j], t).ScanPublishWant? && !PcOf(states[j - 1], t).ScanPublishWant?
    ensures CallingBack(PcOf(states[k], t))
  {
    hide Run, PcOf, Scanning, Stage, CallingBack;
    StageOf(PcOf(states[f], t));
    StageOf(PcOf(states[k], t));
    StageOf(PcOf(states[j - 1], t));
    StageOf(PcOf(states[j], t));
    CarriesNow(states, events, f, t);
    Carried(states, events, f + 1, k, t);
    Carried(states, events, k, j - 1, t);
    Carried(states, events, j - 1, j, t);
  }

  /** The part of a scan between two of its moments. */
  lemma Within(states: seq<State>, events: seq<Event>, t: Tid, h: nat, l: nat, a: nat, c: nat, f: nat, j: nat)
    requires WholeScan(states, events, t, h, l, a, c, f, j)
    ensures InOneScan(states, l, f, t) && InOneScan(states, a, f, t) && InOneScan(states, c, f, t) && InOneScan(states, f, j, t)
    ensures InOneScan(states, h + 1, f, t) && InOneScan(states, h + 1, c, t)
  {
    hide Run, PcOf, Scanning;
  }

  /** What the scan brings to pass C. */
  lemma FillsWith(states: seq<State>, events: seq<Event>, t: Tid, h: nat, l: nat, a: nat, c: nat, f: nat, j: nat)
    requires WholeScan(states, events, t, h, l, a, c, f, j)
    ensures Run(states, events) && f < j < |states| && PcOf(states[f], t).ScanFill? && PcOf(states[j], t).ScanPublishWant?
    ensures var pc := PcOf(states[f], t);
            events[l].c.Listing? && pc.listing == events[l].c.rows && pc.have == states[a].mem.sh.entries.Keys
            && pc.snap == states[h].mem.sh.epoch && pc.clean == (states[c].mem.sh.epoch == states[h].mem.sh.epoch)
    ensures forall k :: f < k < j ==> CallingBack(PcOf(states[k], t))
  {
    Within(states, events, t, h, l, a, c, f, j);
    hide Run, PcOf, PendingOf, Scanning, Stage, CallingBack;
    ListingAt(states, events, l, f, t);
    HaveAt(states, events, a, f, t);
    CleanAt(states, events, c, f, t);
    SnapshotCarried(states, events, h, f, t);
    SnapshotCarried(states, events, h, c, t);
    forall k | f < k < j ensures CallingBack(PcOf(states[k], t)) { CallsBack(states, events, f, k, j, t); }
  }

  /** Over a whole scan, whatever the other threads do meanwhile, the callback gets exactly the expected entries: for
      every listed name that had no entry in pass A, and for every listed name still cached in pass C, one entry, and
      nothing else. */
  lemma ScanAnswers(states: seq<State>, events: seq<Event>, t: Tid, h: nat, l: nat, a: nat, c: nat, f: nat, j: nat)
    requires WholeScan(states, events, t, h, l, a, c, f, j)
    ensures events[l].c.Listing?
    ensures forall e ::
              Handed(states, events, f, j, t, e) <==>
              Expected(e, events[l].c.rows, states[a].mem.sh.entries, states[f].mem.sh.entries,
                       states[c].mem.sh.epoch == states[h].mem.sh.epoch, states[h].mem.sh.epoch, states[f].mem.gen)
  {
    FillsWith(states, events, t, h, l, a, c, f, j);
    hide *;
    ScanHandsOut(states, events, f, j, t);
    EntriesNamed(states, events, f);
    forall e: Entry
      ensures Handed(states, events, f, j, t, e) <==>
              Expected(e, events[l].c.rows, states[a].mem.sh.entries, states[f].mem.sh.entries,
                       states[c].mem.sh.epoch == states[h].mem.sh.epoch, states[h].mem.sh.epoch, states[f].mem.gen)
    {
      ListedIsExpected(states[f].mem, events[l].c.rows, states[a].mem.sh.entries,
                       states[c].mem.sh.epoch == states[h].mem.sh.epoch, states[h].mem.sh.epoch, e);
    }
  }

  /** The step of a scan that leads past a stage. */
  lemma {:induction false} Passed(states: seq<State>, events: seq<Event>, i: nat, j: nat, t: Tid, stage: nat) returns (k: nat)
    requires Run(states, events) && i <= j && InOneScan(states, i, j, t)
    requires Stage(PcOf(states[i], t)) <= stage < Stage(PcOf(states[j], t))
    ensures i <= k < j && Steps(events, k, t) && Stage(PcOf(states[k], t)) == stage
    decreases j
  {
    hide Apply, PcOf, Scanning, Stage;
    k := j - 1;
    OneStep(states, events, k, t);
    if Steps(events, k, t) { CarriesNow(states, events, k, t); }
    if Stage(PcOf(states[k], t)) > stage { k := Passed(states, events, i, k, t, stage); }
  }

  lemma SnapStarts(m: Mem, t: Tid, pc: Pc, c: Choice, pend: Option<Scope>)
    requires !Scanning(pc) && Step(m, t, pc, c, pend).Some? && Scanning(Step(m, t, pc, c, pend).value.pc)
    ensures pc.ScanSnap?
  {
    hide ScanStep, Step;
    Kinds(m, t, pc, c, pend);
  }

  lemma {:induction false} ScanBegan(states: seq<State>, events: seq<Event>, j: nat, t: Tid) returns (h: nat)
    requires Run(states, events) && j < |states| && Scanning(PcOf(states[j], t))
    ensures h < j && Steps(events, h, t) && PcOf(states[h], t).ScanSnap? && InOneScan(states, h + 1, j, t)
    decreases j
  {
    hide Apply, Step, Scanning, PendingOf;
    if j == 0 {
      NoScan(Idle);
      assert false;
    } else {
      h := j - 1;
      hide PcOf;
      OneStep(states, events, h, t);
      if Scanning(PcOf(states[h], t)) {
        h := ScanBegan(states, events, h, t);
      } else {
        SnapStarts(states[h].mem, t, PcOf(states[h], t), events[h].c, PendingOf(states[h]));
      }
    }
  }

  lemma FirstStage(states: seq<State>, events: seq<Event>, h: nat, t: Tid)
    requires Run(states, events) && h < |events| && Steps(events, h, t)
    requires PcOf(states[h], t).ScanSnap?
    ensures Stage(PcOf(states[h + 1], t)) == 1
  {
    OneStep(states, events, h, t);
    hide *;
    FirstStep(states[h].mem, t, PcOf(states[h], t), events[h].c, PendingOf(states[h]));
  }

  lemma FirstStep(m: Mem, t: Tid, pc: Pc, c: Choice, pend: Option<Scope>)
    requires pc.ScanSnap? && Step(m, t, pc, c, pend).Some?
    ensures Stage(Step(m, t, pc, c, pend).value.pc) == 1
  {
  }

  /** Every scan that gets to its publication has been through those moments. */
  lemma ScanHasMoments(states: seq<State>, events: seq<Event>, t: Tid, j: nat) returns (h: nat, l: nat, a: nat, c: nat, f: nat)
    requires Run(states, events) && 0 < j < |states|
    requires PcOf(states[j], t).ScanPublishWant? && !PcOf(states[j - 1], t).ScanPublishWant?
    ensures WholeScan(states, events, t, h, l, a, c, f, j)
  {
    hide Run, Stage, PcOf;
    h := ScanBegan(states, events, j, t);
    hide Scanning;
    FirstStage(states, events, h, t);
    StageOf(PcOf(states[j], t));
    l := Passed(states, events, h + 1, j, t, 1);
    a := Passed(states, events, h + 1, j, t, 3);
    c := Passed(states, events, h + 1, j, t, 6);
    f := Passed(states, events, h + 1, j, t, 7);
    InOrder(states, events, h + 1, l, a, j, t);
    InOrder(states, events, h + 1, a, c, j, t);
    InOrder(states, events, h + 1, c, f, j, t);
    StageOf(PcOf(states[l], t));
    StageOf(PcOf(states[a], t));
    StageOf(PcOf(states[c], t));
    StageOf(PcOf(states[f], t));
  }

  lemma InOrder(states: seq<State>, events: seq<Event>, i: nat, k: nat, l: nat, j: nat, t: Tid)
    requires Run(states, events) && i <= k < j && i <= l < j && InOneScan(states, i, j, t)
    requires Stage(PcOf(states[k], t)) < Stage(PcOf(states[l], t))
    ensures k < l
  {
    hide Run, Stage, PcOf, Scanning;
    if l <= k { Carried(states, events, l, k, t); }
  }

  // ---------------------------------------------------------------- what GetEntry hands out

  /** The entry a thread has made up its mind to hand out. */
  function Settled(pc: Pc): Option<Entry> {
    match pc
    case LoadPublishWant(_, _, got, _) => got
    case LoadPublish(_, _, got, _) => got
    case LoadStore(_, _, got, _, _) => got
    case Anchor(e) => Some(e)
    case Return(e) => Some(e)
    case _ => None
  }

  lemma AnswerStep(m: Mem, t: Tid, pc: Pc, c: Choice, pend: Option<Scope>)
    requires Settled(pc).Some? && Step(m, t, pc, c, pend).Some?
    ensures var pc' := Step(m, t, pc, c, pend).value.pc;
            if pc.Return? then pc'.Idle? else Settled(pc') == Settled(pc)
    ensures HandsOut(pc) == if pc.Return? then Settled(pc) else None
  {
    hide StoreLoaded, Keep;
  }

  /** A thread that has made up its mind hands that entry out, and no other, before it is idle again. */
  lemma {:induction false} AnswerIsHandedOut(states: seq<State>, events: seq<Event>, i: nat, j: nat, t: Tid, e: Entry)
    requires Run(states, events) && i < j < |states| && Settled(PcOf(states[i + 1], t)) == Some(e)
    requires forall k :: i < k < j ==> !PcOf(states[k], t).Idle?
    ensures PcOf(states[j], t).Idle? ==> Handed(states, events, i, j, t, e)
    ensures !PcOf(states[j], t).Idle? ==> Settled(PcOf(states[j], t)) == Some(e)
    ensures forall x :: Handed(states, events, i, j, t, x) ==> x == e
  {
    hide Apply, Step, PcOf, PendingOf, HandsOut, Settled;
    NotIdle(PcOf(states[i + 1], t));
    if i + 1 < j {
      var p := j - 1;
      AnswerIsHandedOut(states, events, i, p, t, e);
      OneStep(states, events, p, t);
      if Steps(events, p, t) { AnswerStep(states[p].mem, t, PcOf(states[p], t), events[p].c, PendingOf(states[p])); }
      NotIdle(PcOf(states[j], t));
      forall x ensures Handed(states, events, i, j, t, x) <==> Handed(states, events, i, p, t, x) || HandsOutAt(states, events, p, t, x) {
        HandedNext(states, events, i, p, t, x);
      }
    }
  }

  lemma NotIdle(pc: Pc)
    ensures Settled(pc).Some? ==> !pc.Idle?
  {
  }

  lemma LookFinds(m: Mem, t: Tid, pc: Pc, c: Choice, pend: Option<Scope>)
    requires (pc.GetLook? || pc.Relook?) && pc.n in m.sh.entries
    ensures var a := Step(m, t, pc, c, pend); a.Some? && Settled(a.value.pc) == Some(m.sh.entries[pc.n])
  {
  }

  /** A look at a cached name is answered with the entry that is cached at that moment, and with nothing else. */
  lemma CachedIsAnswered(states: seq<State>, events: seq<Event>, i: nat, j: nat, t: Tid)
    requires Run(states, events) && i < j < |states| && Steps(events, i, t)
    requires PcOf(states[i], t).GetLook? || PcOf(states[i], t).Relook?
    requires PcOf(states[i], t).n in states[i].mem.sh.entries
    requires PcOf(states[j], t).Idle? && forall k :: i < k < j ==> !PcOf(states[k], t).Idle?
    ensures forall e :: Handed(states, events, i, j, t, e) <==> e == states[i].mem.sh.entries[PcOf(states[i], t).n]
  {
    hide Apply, Step, PcOf, PendingOf, Settled, Handed;
    OneStep(states, events, i, t);
    LookFinds(states[i].mem, t, PcOf(states[i], t), events[i].c, PendingOf(states[i]));
    AnswerIsHandedOut(states, events, i, j, t, states[i].mem.sh.entries[PcOf(states[i], t).n]);
  }

  lemma FetchFinds(m: Mem, t: Tid, pc: Pc, c: Choice, pend: Option<Scope>)
    requires pc.LoadFetch? && Step(m, t, pc, c, pend).Some? && c.Answer? && c.found && !c.failed
    ensures Settled(Step(m, t, pc, c, pend).value.pc) == Some(Entry(pc.n, m.gen, pc.snap, c.at))
  {
  }

  /** What the server finds is what the caller of the fetching thread gets, whether or not an invalidation kept it out
      of the cache. */
  lemma FetchedIsAnswered(states: seq<State>, events: seq<Event>, i: nat, j: nat, t: Tid)
    requires Run(states, events) && i < j < |states| && Steps(events, i, t) && PcOf(states[i], t).LoadFetch?
    requires events[i].c.Answer? && events[i].c.found && !events[i].c.failed
    requires PcOf(states[j], t).Idle? && forall k :: i < k < j ==> !PcOf(states[k], t).Idle?
    ensures var pc := PcOf(states[i], t);
            forall e :: Handed(states, events, i, j, t, e) <==> e == Entry(pc.n, states[i].mem.gen, pc.snap, events[i].c.at)
  {
    hide Apply, Step, PcOf, PendingOf, Settled, Handed;
    var pc := PcOf(states[i], t);
    OneStep(states, events, i, t);
    FetchFinds(states[i].mem, t, pc, events[i].c, PendingOf(states[i]));
    AnswerIsHandedOut(states, events, i, j, t, Entry(pc.n, states[i].mem.gen, pc.snap, events[i].c.at));
  }

  /** The name a thread in `GetEntry` was asked for, or that of the entry it answers with. */
  function Asked(pc: Pc): Option<Name> {
    match pc
    case GetWant(n) => Some(n)
    case GetLook(n) => Some(n)
    case GetFully(n) => Some(n)
    case GetFilter(n) => Some(n)
    case NegWant(n) => Some(n)
    case NegStore(n) => Some(n)
    case GetFlag(n) => Some(n)
    case NamesWant(n) => Some(n)
    case NamesLook(n) => Some(n)
    case NamesNegWant(n) => Some(n)
    case NamesNegStore(n) => Some(n)
    case LoadWant(n) => Some(n)
    case LoadEnter(n) => Some(n)
    case LoadWaiting(n) => Some(n)
    case LoadFetch(n, _, _) => Some(n)
    case LoadPublishWant(n, _, _, _) => Some(n)
    case LoadPublish(n, _, _, _) => Some(n)
    case LoadStore(n, _, _, _, _) => Some(n)
    case RelookWant(n) => Some(n)
    case Relook(n) => Some(n)
    case Anchor(e) => Some(e.name)
    case Return(e) => Some(e.name)
    case _ => None
  }

  lemma GetKeepsName(m: Mem, t: Tid, pc: Pc, c: Choice)
    requires GetStep(m, t, pc, c).Some? && forall n :: n in m.sh.entries ==> m.sh.entries[n].name == n
    ensures var pc' := GetStep(m, t, pc, c).value.pc; pc'.Idle? || Asked(pc') == Asked(pc)
  {
    hide Keep;
  }

  lemma LoadKeepsName(m: Mem, t: Tid, pc: Pc, c: Choice)
    requires LoadStep(m, t, pc, c).Some? && ThreadOk(m, t, pc)
    ensures var pc' := LoadStep(m, t, pc, c).value.pc; pc'.Idle? || Asked(pc') == Asked(pc)
  {
    hide StoreLoaded, Since, Cleared, ListingOk, HaveOk, FilledOk, NoneClearedSince;
  }

  lemma NameKept(states: seq<State>, events: seq<Event>, k: nat, t: Tid)
    requires Run(states, events) && k < |events| && Asked(PcOf(states[k], t)).Some?
    ensures PcOf(states[k + 1], t).Idle? || Asked(PcOf(states[k + 1], t)) == Asked(PcOf(states[k], t))
  {
    OneStep(states, events, k, t);
    hide *;
    RunsKeepInv(states, events, k);
    ThreadAt(states[k], t);
    EntriesNamed(states, events, k);
    if events[k].By? { NameStep(states[k].mem, t, PcOf(states[k], t), events[k].c, PendingOf(states[k])); }
    assert Steps(events, k, t) ==> events[k].By? by { StepsIs(events, k, t); }
  }

  lemma StepsIs(events: seq<Event>, k: int, t: Tid)
    ensures Steps(events, k, t) ==> 0 <= k < |events| && events[k].By? && events[k].t == t
  {
  }

  lemma NameStep(m: Mem, t: Tid, pc: Pc, c: Choice, pend: Option<Scope>)
    requires Asked(pc).Some? && ThreadOk(m, t, pc) && forall n :: n in m.sh.entries ==> m.sh.entries[n].name == n
    ensures var a := Step(m, t, pc, c, pend); a.Some? ==> a.value.pc.Idle? || Asked(a.value.pc) == Asked(pc)
  {
    hide GetStep, LoadStep, ScanStep, InvalidateStep, ThreadOk;
    var a := Step(m, t, pc, c, pend);
    if a.Some? {
      AskedIsGet(pc);
      if InGet(pc) { GetKeepsName(m, t, pc, c); } else { LoadKeepsName(m, t, pc, c); }
    }
  }

  lemma AskedIsGet(pc: Pc)
    requires Asked(pc).Some?
    ensures !pc.Idle? && (InGet(pc) || InLoad(pc))
  {
  }

  /** From the call of `GetEntry` on, the thread is about that name, so every entry it hands out has the name asked
      for. */
  lemma {:induction false} AnswersTheName(states: seq<State>, events: seq<Event>, i: nat, j: nat, t: Tid, n: Name)
    requires Run(states, events) && i <= j < |states| && PcOf(states[i], t) == GetWant(n)
    requires forall k :: i < k <= j ==> !PcOf(states[k], t).Idle?
    ensures Asked(PcOf(states[j], t)) == Some(n)
    ensures HandsOut(PcOf(states[j], t)).Some? ==> HandsOut(PcOf(states[j], t)).value.name == n
  {
    hide Apply, PcOf, Asked, HandsOut;
    if i < j {
      AnswersTheName(states, events, i, j - 1, t, n);
      NameKept(states, events, j - 1, t);
    } else {
      AsksFor(n);
    }
    AskedIsHanded(PcOf(states[j], t));
  }

  lemma AsksFor(n: Name)
    ensures Asked(GetWant(n)) == Some(n)
  {
  }

  lemma AskedIsHanded(pc: Pc)
    ensures Asked(pc).Some? && HandsOut(pc).Some? ==> Asked(pc) == Some(HandsOut(pc).value.name)
  {
  }
}
