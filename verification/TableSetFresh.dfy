/** What a whole invalidation is for: once its call has returned, no answer is older than the call. And what the flags
    and a finished load stand for (src/catalog/mssql_table_set.cpp:256-267, 346-374, 376-416). */
module TableSetFresh {
  import opened Staging
  import opened TableSet
  import opened TableSetSafety
  import opened TableSetRuns
  import opened TableSetTheorems
  import opened TableSetAnswers
  import opened TableSetEffects

  // ---------------------------------------------------------------- an invalidation runs to its end

  /** How far an invalidation has come. */
  function InvStage(pc: Pc): nat {
    match pc
    case InvWant(_) => 1
    case InvBump(_) => 2
    case InvLowerFully(_, _) => 3
    case InvLowerNames(_, _) => 4
    case InvEntryWant(_, _) => 5
    case InvEntryClear(_, _) => 6
    case InvNamesWant(_, _) => 7
    case InvNamesClear(_, _) => 8
    case _ => 0
  }

  lemma InvGoesOn(m: Mem, t: Tid, pc: Pc, c: Choice, pend: Option<Scope>)
    requires InvStage(pc) > 0 && Step(m, t, pc, c, pend).Some?
    ensures var a := Step(m, t, pc, c, pend).value; var pc' := a.pc;
            if InvStage(pc) == 8 then pc'.Idle?
            else
              InvStage(pc') == InvStage(pc) + 1 && pc'.scope == pc.scope
              && (InvStage(pc) == 2 ==> pc'.epoch == m.sh.epoch + 1 && a.mem.bumpClock == m.bumpClock + [m.clock])
              && (InvStage(pc) > 2 ==> pc'.epoch == pc.epoch)
  {
  }

  lemma {:induction false} ClockGrows(states: seq<State>, events: seq<Event>, i: nat, j: nat)
    requires Run(states, events) && i <= j < |states|
    ensures states[i].mem.clock <= states[j].mem.clock && states[i].mem.bumpClock <= states[j].mem.bumpClock
  {
    hide Apply, Inv, Step, PcOf;
    if i < j {
      ClockGrows(states, events, i, j - 1);
      ClockStep(states, events, j - 1);
    }
  }

  lemma ClockStep(states: seq<State>, events: seq<Event>, k: nat)
    requires Run(states, events) && k < |events|
    ensures states[k].mem.clock <= states[k + 1].mem.clock && states[k].mem.bumpClock <= states[k + 1].mem.bumpClock
  {
    Moves(states, events, k);
    hide Run, Step, ThreadOk;
    RunsKeepInv(states, events, k);
    if events[k].By? {
      var t := events[k].t;
      ThreadAt(states[k], t);
      StepGuarantees(states[k].mem, t, PcOf(states[k], t), events[k].c, PendingOf(states[k]));
    }
  }

  /** Between `i` and `j` thread `t` has cleared the entries `scope` covers, under an epoch moved since. */
  ghost predicate ClearedSince(states: seq<State>, events: seq<Event>, i: nat, j: nat, t: Tid, scope: Scope) {
    exists k :: i <= k < j && ClearsSince(states, events, i, k, t, scope)
  }

  ghost predicate ClearsSince(states: seq<State>, events: seq<Event>, i: nat, k: nat, t: Tid, scope: Scope) {
    i <= k < |states| && Steps(events, k, t) && PcOf(states[k], t).InvEntryClear? && PcOf(states[k], t).scope == scope
    && BumpedSince(states[k].mem, PcOf(states[k], t), states[i].mem.clock)
  }

  ghost predicate BumpedSince(m: Mem, pc: Pc, at: nat) {
    InvStage(pc) >= 3 && pc.epoch < |m.bumpClock| && at <= m.bumpClock[pc.epoch]
  }

  ghost predicate Under(states: seq<State>, events: seq<Event>, i: nat, j: nat, t: Tid, scope: Scope) {
    i <= j < |states|
    && (var pc := PcOf(states[j], t);
        InvStage(pc) > 0 && pc.scope == scope
        && (InvStage(pc) >= 3 ==> BumpedSince(states[j].mem, pc, states[i].mem.clock))
        && (InvStage(pc) >= 7 ==> ClearedSince(states, events, i, j, t, scope)))
  }

  lemma WantsToStart(scope: Scope)
    ensures InvStage(InvWant(scope)) == 1 && InvWant(scope).scope == scope && !InvWant(scope).Idle?
  {
  }

  lemma UnderStays(states: seq<State>, events: seq<Event>, i: nat, p: nat, t: Tid, scope: Scope)
    requires Run(states, events) && i <= p < |events| && Under(states, events, i, p, t, scope) && !Steps(events, p, t)
    ensures Under(states, events, i, p + 1, t, scope)
  {
    OneStep(states, events, p, t);
    ClockStep(states, events, p);
    hide Run, Step, PcOf, PendingOf, InvStage, ClearsSince;
  }

  lemma UnderMoves(states: seq<State>, events: seq<Event>, i: nat, p: nat, t: Tid, scope: Scope)
    requires Run(states, events) && i <= p < |events| && Under(states, events, i, p, t, scope) && Steps(events, p, t)
    ensures if InvStage(PcOf(states[p], t)) == 8 then PcOf(states[p + 1], t).Idle? else Under(states, events, i, p + 1, t, scope)
  {
    OneStep(states, events, p, t);
    ClockStep(states, events, p);
    ClockGrows(states, events, i, p);
    RunsKeepInv(states, events, p);
    hide Run, Step, PcOf, PendingOf, LocksOk, ThreadsOk, SeenOk, SlotsOk, ClearsOk, EntriesOk, Present, ClearsSince;
    InvGoesOn(states[p].mem, t, PcOf(states[p], t), events[p].c, PendingOf(states[p]));
    hide InvStage;
    StageSix(PcOf(states[p], t));
    if PcOf(states[p], t).InvEntryClear? { ClearsHere(states, events, i, p, t, scope); }
  }

  lemma ClearsHere(states: seq<State>, events: seq<Event>, i: nat, k: nat, t: Tid, scope: Scope)
    requires Under(states, events, i, k, t, scope) && Steps(events, k, t) && PcOf(states[k], t).InvEntryClear?
    ensures ClearsSince(states, events, i, k, t, scope)
  {
    hide PcOf, ClearedSince;
  }

  lemma StageSix(pc: Pc)
    ensures pc.InvEntryClear? <==> InvStage(pc) == 6
  {
  }

  lemma {:induction false} UnderWay(states: seq<State>, events: seq<Event>, i: nat, j: nat, t: Tid, scope: Scope)
    requires Run(states, events) && i <= j < |states| && PcOf(states[i], t) == InvWant(scope)
    requires forall k :: i < k <= j ==> !PcOf(states[k], t).Idle?
    ensures Under(states, events, i, j, t, scope)
  {
    hide Apply, PcOf, BumpedSince, ClearedSince, InvStage;
    WantsToStart(scope);
    if i < j {
      UnderWay(states, events, i, j - 1, t, scope);
      if Steps(events, j - 1, t) {
        UnderMoves(states, events, i, j - 1, t, scope);
      } else {
        UnderStays(states, events, i, j - 1, t, scope);
      }
    }
  }

  /** An invalidation that has returned has cleared the entries it covers, under an epoch it moved. */
  lemma InvalidationClears(states: seq<State>, events: seq<Event>, i: nat, j: nat, t: Tid, scope: Scope) returns (k: nat)
    requires Run(states, events) && i < j < |states| && PcOf(states[i], t) == InvWant(scope)
    requires PcOf(states[j], t).Idle? && forall k :: i < k < j ==> !PcOf(states[k], t).Idle?
    ensures i <= k < j && ClearsSince(states, events, i, k, t, scope)
  {
    hide Apply, Step, PcOf, PendingOf, ClearsSince, BumpedSince, InvStage;
    var p := j - 1;
    UnderWay(states, events, i, p, t, scope);
    WantsToStart(scope);
    OneStep(states, events, p, t);
    IdleHasNoStage(PcOf(states[p], t));
    IdleHasNoStage(PcOf(states[j], t));
    if Steps(events, p, t) { UnderMoves(states, events, i, p, t, scope); }
    assert ClearedSince(states, events, i, p, t, scope);
    k :| i <= k < p && ClearsSince(states, events, i, k, t, scope);
  }

  lemma IdleHasNoStage(pc: Pc)
    ensures pc.Idle? ==> InvStage(pc) == 0
  {
  }

  /** Once an invalidation's call has returned, every entry cached for a name it covers was read from the server after
      the call began. */
  lemma InvalidateWorks(states: seq<State>, events: seq<Event>, i: nat, j: nat, k: nat, t: Tid, scope: Scope, n: Name)
    requires Run(states, events) && i < j <= k < |states| && PcOf(states[i], t) == InvWant(scope)
    requires PcOf(states[j], t).Idle? && forall k :: i < k < j ==> !PcOf(states[k], t).Idle?
    requires Covers(scope, n) && n in states[k].mem.sh.entries
    ensures states[i].mem.clock <= states[k].mem.sh.entries[n].readAt
  {
    hide Apply, PcOf, InvStage;
    var h := InvalidationClears(states, events, i, j, t, scope);
    InvalidationHolds(states, events, h, k, n);
  }

  // ---------------------------------------------------------------- answers after an invalidation

  /** What a thread is about to answer, or to fetch, is no older than `at`. */
  ghost predicate NoOlder(pc: Pc, at: nat) {
    (Settled(pc).Some? ==> at <= Settled(pc).value.readAt) && (pc.LoadFetch? ==> at <= pc.since)
  }

  lemma NoOlderStep(m: Mem, t: Tid, pc: Pc, c: Choice, pend: Option<Scope>, at: nat)
    requires Asked(pc).Some? && NoOlder(pc, at) && at <= m.clock && Step(m, t, pc, c, pend).Some?
    requires Asked(pc).value in m.sh.entries ==> at <= m.sh.entries[Asked(pc).value].readAt
    ensures NoOlder(Step(m, t, pc, c, pend).value.pc, at)
  {
    hide GetStep, LoadStep, ScanStep, InvalidateStep, NoOlder;
    AskedIsGet(pc);
    if InGet(pc) { NoOlderGet(m, t, pc, c, at); } else { NoOlderLoad(m, t, pc, c, at); }
  }

  lemma NoOlderGet(m: Mem, t: Tid, pc: Pc, c: Choice, at: nat)
    requires Asked(pc).Some? && NoOlder(pc, at) && GetStep(m, t, pc, c).Some?
    requires Asked(pc).value in m.sh.entries ==> at <= m.sh.entries[Asked(pc).value].readAt
    ensures NoOlder(GetStep(m, t, pc, c).value.pc, at)
  {
    hide Keep;
  }

  lemma NoOlderLoad(m: Mem, t: Tid, pc: Pc, c: Choice, at: nat)
    requires NoOlder(pc, at) && at <= m.clock && LoadStep(m, t, pc, c).Some?
    ensures NoOlder(LoadStep(m, t, pc, c).value.pc, at)
  {
    hide StoreLoaded;
  }

  lemma CallIsNoOlder(n: Name, at: nat)
    ensures NoOlder(GetWant(n), at)
  {
  }

  lemma {:induction false} GetIsNoOlder(states: seq<State>, events: seq<Event>, g: nat, h: nat, u: Tid, n: Name, at: nat)
    requires Run(states, events) && g <= h < |states| && PcOf(states[g], u) == GetWant(n)
    requires forall k :: g < k <= h ==> !PcOf(states[k], u).Idle?
    requires forall k :: g <= k < h && n in states[k].mem.sh.entries ==> at <= states[k].mem.sh.entries[n].readAt
    requires at <= states[g].mem.clock
    ensures NoOlder(PcOf(states[h], u), at)
  {
    hide Apply, PcOf, PendingOf, Step, NoOlder, Asked, HandsOut;
    if g < h {
      var p := h - 1;
      GetIsNoOlder(states, events, g, p, u, n, at);
      AnswersTheName(states, events, g, p, u, n);
      ClockGrows(states, events, g, p);
      OneStep(states, events, p, u);
      if Steps(events, p, u) { NoOlderStep(states[p].mem, u, PcOf(states[p], u), events[p].c, PendingOf(states[p]), at); }
    } else {
      CallIsNoOlder(n, at);
    }
  }

  lemma HandedIsAnswer(pc: Pc)
    ensures Asked(pc).Some? && HandsOut(pc).Some? ==> Settled(pc) == HandsOut(pc)
  {
  }

  /** A `GetEntry` called after an invalidation of that name has returned hands out no entry read from the server
      before the invalidation was called, whatever was cached, being loaded or invalidated meanwhile. */
  lemma GetSeesInvalidation(states: seq<State>, events: seq<Event>, i: nat, j: nat, g: nat, h: nat, t: Tid, u: Tid, scope: Scope, n: Name)
    requires Run(states, events) && i < j <= g <= h < |states| && PcOf(states[i], t) == InvWant(scope)
    requires PcOf(states[j], t).Idle? && forall k :: i < k < j ==> !PcOf(states[k], t).Idle?
    requires Covers(scope, n) && PcOf(states[g], u) == GetWant(n) && forall k :: g < k <= h ==> !PcOf(states[k], u).Idle?
    requires HandsOut(PcOf(states[h], u)).Some?
    ensures states[i].mem.clock <= HandsOut(PcOf(states[h], u)).value.readAt
  {
    hide Apply, PcOf, Asked, HandsOut, Settled;
    forall k | g <= k < h && n in states[k].mem.sh.entries ensures states[i].mem.clock <= states[k].mem.sh.entries[n].readAt {
      InvalidateWorks(states, events, i, j, k, t, scope, n);
    }
    ClockGrows(states, events, i, g);
    GetIsNoOlder(states, events, g, h, u, n, states[i].mem.clock);
    AnswersTheName(states, events, g, h, u, n);
    HandedIsAnswer(PcOf(states[h], u));
  }

  lemma ListsSince(states: seq<State>, events: seq<Event>, l: nat, t: Tid, n: Name)
    requires Run(states, events) && l < |events| && Steps(events, l, t) && PcOf(states[l], t).ScanLoad?
    requires events[l].c.Listing? && n in events[l].c.rows
    ensures PcOf(states[l], t).since <= events[l].c.rows[n]
  {
    OneStep(states, events, l, t);
    hide *;
    ListStep(states[l].mem, t, PcOf(states[l], t), events[l].c, PendingOf(states[l]), n);
  }

  lemma ListStep(m: Mem, t: Tid, pc: Pc, c: Choice, pend: Option<Scope>, n: Name)
    requires pc.ScanLoad? && Step(m, t, pc, c, pend).Some? && c.Listing? && n in c.rows
    ensures pc.since <= c.rows[n]
  {
  }

  lemma StartsNow(states: seq<State>, events: seq<Event>, h: nat, t: Tid)
    requires Run(states, events) && h < |events| && Steps(events, h, t) && PcOf(states[h], t).ScanSnap?
    ensures PcOf(states[h + 1], t).ScanLoad? && PcOf(states[h + 1], t).since == states[h].mem.clock
  {
    OneStep(states, events, h, t);
    hide *;
    StartStep(states[h].mem, t, PcOf(states[h], t), events[h].c, PendingOf(states[h]));
  }

  lemma StartStep(m: Mem, t: Tid, pc: Pc, c: Choice, pend: Option<Scope>)
    requires pc.ScanSnap? && Step(m, t, pc, c, pend).Some?
    ensures var pc' := Step(m, t, pc, c, pend).value.pc; pc'.ScanLoad? && pc'.since == m.clock
  {
  }

  /** A scan's listing was read after the scan began. */
  lemma ListingIsRecent(states: seq<State>, events: seq<Event>, u: Tid, h: nat, l: nat, a: nat, c: nat, f: nat, p: nat, n: Name)
    requires WholeScan(states, events, u, h, l, a, c, f, p)
    requires events[l].c.Listing? && n in events[l].c.rows
    ensures states[h].mem.clock <= events[l].c.rows[n]
  {
    hide Run, PcOf, Scanning, Stage;
    StartsNow(states, events, h, u);
    StageOf(PcOf(states[h + 1], u));
    StageOf(PcOf(states[l], u));
    Carried(states, events, h + 1, l, u);
    ListsSince(states, events, l, u, n);
  }

  /** Nor does a scan begun after it hand its callback such an entry. */
  lemma ScanSeesInvalidation(
      states: seq<State>, events: seq<Event>, i: nat, j: nat, t: Tid, scope: Scope,
      u: Tid, h: nat, l: nat, a: nat, c: nat, f: nat, p: nat, e: Entry)
    requires WholeScan(states, events, u, h, l, a, c, f, p) && i < j <= h && PcOf(states[i], t) == InvWant(scope)
    requires PcOf(states[j], t).Idle? && forall k :: i < k < j ==> !PcOf(states[k], t).Idle?
    requires Covers(scope, e.name) && Handed(states, events, f, p, u, e)
    ensures states[i].mem.clock <= e.readAt
  {
    ScanAnswers(states, events, u, h, l, a, c, f, p);
    assert Run(states, events) && h < f < |states|;
    hide *;
    ClockGrows(states, events, i, h);
    ExpectedIs(e, events[l].c.rows, states[a].mem.sh.entries, states[f].mem.sh.entries,
               states[c].mem.sh.epoch == states[h].mem.sh.epoch, states[h].mem.sh.epoch, states[f].mem.gen);
    ListingIsRecent(states, events, u, h, l, a, c, f, p, e.name);
    if e.name in states[f].mem.sh.entries { InvalidateWorks(states, events, i, j, f, t, scope, e.name); }
  }

  lemma ExpectedIs(e: Entry, rows: map<Name, nat>, had: map<Name, Entry>, cached: map<Name, Entry>, clean: bool, epoch: nat, gen: nat)
    requires Expected(e, rows, had, cached, clean, epoch, gen)
    ensures e.name in rows && ((e.name in cached && e == cached[e.name]) || e.readAt == rows[e.name])
  {
  }

  // ---------------------------------------------------------------- all the parts of an invalidation

  lemma InvMoves(states: seq<State>, events: seq<Event>, k: nat, t: Tid)
    requires Run(states, events) && k < |events| && InvStage(PcOf(states[k], t)) > 0
    ensures var pc, pc' := PcOf(states[k], t), PcOf(states[k + 1], t);
            if !Steps(events, k, t) then pc' == pc
            else if InvStage(pc) == 8 then pc'.Idle?
            else InvStage(pc') == InvStage(pc) + 1 && pc'.scope == pc.scope
  {
    OneStep(states, events, k, t);
    hide *;
    if Steps(events, k, t) { InvGoesOn(states[k].mem, t, PcOf(states[k], t), events[k].c, PendingOf(states[k])); }
  }

  /** The step of an invalidation at some stage. */
  lemma {:induction false} InvPassed(states: seq<State>, events: seq<Event>, i: nat, j: nat, t: Tid, scope: Scope, stage: nat) returns (k: nat)
    requires Run(states, events) && i < j < |states| && PcOf(states[i], t) == InvWant(scope) && 1 <= stage <= 8
    requires forall k :: i < k < j ==> !PcOf(states[k], t).Idle?
    requires PcOf(states[j], t).Idle? || InvStage(PcOf(states[j], t)) > stage
    ensures i <= k < j && Steps(events, k, t) && InvStage(PcOf(states[k], t)) == stage && PcOf(states[k], t).scope == scope
    decreases j
  {
    hide Apply, PcOf, BumpedSince, ClearedSince, InvStage;
    k := j - 1;
    UnderWay(states, events, i, k, t, scope);
    InvMoves(states, events, k, t);
    WantsToStart(scope);
    IdleHasNoStage(PcOf(states[k], t));
    IdleHasNoStage(PcOf(states[j], t));
    if InvStage(PcOf(states[k], t)) != stage || !Steps(events, k, t) {
      StageBound(PcOf(states[k], t));
      assert InvStage(PcOf(states[k], t)) > stage;
      k := InvPassed(states, events, i, k, t, scope, stage);
    }
  }

  lemma StageBound(pc: Pc)
    ensures InvStage(pc) <= 8
    ensures InvStage(pc) == 1 ==> pc.InvWant?
    ensures InvStage(pc) == 2 <==> pc.InvBump?
    ensures InvStage(pc) == 3 <==> pc.InvLowerFully?
    ensures InvStage(pc) == 4 <==> pc.InvLowerNames?
    ensures InvStage(pc) == 6 <==> pc.InvEntryClear?
    ensures InvStage(pc) == 8 <==> pc.InvNamesClear?
  {
  }

  /** A call that has returned has moved the epoch, lowered each flag, and then emptied each container of the names it
      covers. */
  lemma InvalidationDoesAll(states: seq<State>, events: seq<Event>, i: nat, j: nat, t: Tid, scope: Scope)
    returns (b: nat, f: nat, l: nat, c: nat, d: nat)
    requires Run(states, events) && i < j < |states| && PcOf(states[i], t) == InvWant(scope)
    requires PcOf(states[j], t).Idle? && forall k :: i < k < j ==> !PcOf(states[k], t).Idle?
    ensures i < b < f < l < c < d <= j
    ensures states[b].mem.sh.epoch == states[b - 1].mem.sh.epoch + 1
    ensures !states[f].mem.sh.fully && !states[l].mem.sh.namesLoaded
    ensures forall n: Name :: Covers(scope, n) ==> n !in states[c].mem.sh.entries && n !in states[c].mem.sh.attempted
    ensures forall n: Name :: Covers(scope, n) ==> n !in states[d].mem.sh.known
  {
    hide *;
    b := InvPartAt(states, events, i, j, t, scope, 2);
    f := InvPartAt(states, events, i, j, t, scope, 3);
    l := InvPartAt(states, events, i, j, t, scope, 4);
    c := InvPartAt(states, events, i, j, t, scope, 6);
    d := InvPartAt(states, events, i, j, t, scope, 8);
    InvInOrder(states, events, i, b, f, j, t, scope);
    InvInOrder(states, events, i, f, l, j, t, scope);
    InvInOrder(states, events, i, l, c, j, t, scope);
    InvInOrder(states, events, i, c, d, j, t, scope);
    b, f, l, c, d := b + 1, f + 1, l + 1, c + 1, d + 1;
  }

  lemma InvPartAt(states: seq<State>, events: seq<Event>, i: nat, j: nat, t: Tid, scope: Scope, stage: nat) returns (k: nat)
    requires Run(states, events) && i < j < |states| && PcOf(states[i], t) == InvWant(scope) && 1 <= stage <= 8
    requires PcOf(states[j], t).Idle? && forall k :: i < k < j ==> !PcOf(states[k], t).Idle?
    ensures i <= k < j && Steps(events, k, t) && InvStage(PcOf(states[k], t)) == stage && PcOf(states[k], t).scope == scope
    ensures stage >= 2 ==> i < k
    ensures var sh, sh' := states[k].mem.sh, states[k + 1].mem.sh;
            (stage == 2 ==> sh'.epoch == sh.epoch + 1) && (stage == 3 ==> !sh'.fully) && (stage == 4 ==> !sh'.namesLoaded)
            && (stage == 6 ==> forall n: Name :: Covers(scope, n) ==> n !in sh'.entries && n !in sh'.attempted)
            && (stage == 8 ==> forall n: Name :: Covers(scope, n) ==> n !in sh'.known)
  {
    hide Apply, PcOf, InvStage;
    k := InvPassed(states, events, i, j, t, scope, stage);
    WantsToStart(scope);
    EffectAt(states, events, k, t);
  }

  /** Stages do not go back. */
  lemma InvInOrder(states: seq<State>, events: seq<Event>, i: nat, k: nat, l: nat, j: nat, t: Tid, scope: Scope)
    requires Run(states, events) && i <= k < j < |states| && i <= l < j && PcOf(states[i], t) == InvWant(scope)
    requires forall k :: i < k < j ==> !PcOf(states[k], t).Idle?
    requires 0 < InvStage(PcOf(states[k], t)) < InvStage(PcOf(states[l], t))
    ensures k < l
  {
    hide Run, PcOf, InvStage;
    if l <= k { InvForward(states, events, l, k, t); }
  }

  lemma {:induction false} InvForward(states: seq<State>, events: seq<Event>, l: nat, k: nat, t: Tid)
    requires Run(states, events) && l <= k < |states| && InvStage(PcOf(states[l], t)) > 0
    requires forall h :: l < h <= k ==> !PcOf(states[h], t).Idle?
    ensures InvStage(PcOf(states[l], t)) <= InvStage(PcOf(states[k], t))
  {
    hide Apply, PcOf, InvStage;
    if l < k {
      InvForward(states, events, l, k - 1, t);
      InvMoves(states, events, k - 1, t);
    }
  }

  /** What the step at `k` of an invalidation does, name by name. */
  lemma EffectAt(states: seq<State>, events: seq<Event>, k: nat, t: Tid)
    requires Run(states, events) && Steps(events, k, t) && InvStage(PcOf(states[k], t)) > 0
    ensures var stage, scope, sh, sh' := InvStage(PcOf(states[k], t)), PcOf(states[k], t).scope, states[k].mem.sh, states[k + 1].mem.sh;
            (stage == 2 ==> sh'.epoch == sh.epoch + 1) && (stage == 3 ==> !sh'.fully) && (stage == 4 ==> !sh'.namesLoaded)
            && (stage == 6 ==> forall n: Name :: Covers(scope, n) ==> n !in sh'.entries && n !in sh'.attempted)
            && (stage == 8 ==> forall n: Name :: Covers(scope, n) ==> n !in sh'.known)
  {
    var pc := PcOf(states[k], t);
    EveryEffect(states, events, k);
    StageBound(pc);
    hide Run, PcOf, InvStage, FlagsBy, Covers;
    assert FlagsBy(states[k].mem, pc, states[k + 1].mem);
    FlagsStep(states[k].mem, pc, states[k + 1].mem);
    forall n: Name | Covers(pc.scope, n)
      ensures pc.InvEntryClear? ==> n !in states[k + 1].mem.sh.entries && n !in states[k + 1].mem.sh.attempted
      ensures pc.InvNamesClear? ==> n !in states[k + 1].mem.sh.known
    {
      assert AttemptedBy(states[k].mem, pc, states[k + 1].mem, n) && KnownBy(states[k].mem, pc, states[k + 1].mem, n)
             && CachedFor(states[k + 1].mem, n) == CachedBy(states[k].mem, pc, n);
    }
  }

  lemma FlagsStep(m: Mem, pc: Pc, m': Mem)
    requires FlagsBy(m, pc, m')
    ensures pc.InvBump? ==> m'.sh.epoch == m.sh.epoch + 1
    ensures pc.InvLowerFully? ==> !m'.sh.fully
    ensures pc.InvLowerNames? ==> !m'.sh.namesLoaded
  {
  }

  // ---------------------------------------------------------------- what the flags stand for

  /** Some scan has published at `i`, and no invalidation has lowered the flags from there to `j`. */
  ghost predicate PublishedAt(states: seq<State>, events: seq<Event>, i: nat, j: nat) {
    i < j < |states| && i < |events| && MoverPc(states[i], events[i]).ScanStoreNames?
    && forall k :: i < k < j && k < |events| ==> !MoverPc(states[k], events[k]).InvLowerFully?
  }

  ghost predicate Published(states: seq<State>, events: seq<Event>, j: nat) { exists i :: PublishedAt(states, events, i, j) }

  lemma PublishedOn(states: seq<State>, events: seq<Event>, p: nat)
    requires p + 1 < |states| && p < |events| && Published(states, events, p) && !MoverPc(states[p], events[p]).InvLowerFully?
    ensures Published(states, events, p + 1)
  {
    hide MoverPc;
    var i :| PublishedAt(states, events, i, p);
    assert PublishedAt(states, events, i, p + 1);
  }

  lemma StoreFullyStep(m: Mem, t: Tid, pc: Pc, c: Choice, pend: Option<Scope>)
    requires Step(m, t, pc, c, pend).Some? && Step(m, t, pc, c, pend).value.pc.ScanStoreFully?
    ensures pc.ScanStoreNames?
  {
    hide Step, ScanStep, Scanning;
    PublishingScans(Step(m, t, pc, c, pend).value.pc);
    Kinds(m, t, pc, c, pend);
    StoreFullyScan(m, t, pc, c, pend);
  }

  lemma PublishingScans(pc: Pc)
    ensures pc.ScanStoreFully? ==> Scanning(pc)
  {
  }

  lemma StoreFullyScan(m: Mem, t: Tid, pc: Pc, c: Choice, pend: Option<Scope>)
    requires ScanStep(m, t, pc, c, pend).Some? && ScanStep(m, t, pc, c, pend).value.pc.ScanStoreFully?
    ensures pc.ScanStoreNames?
  {
    hide Fill, Listed, Keep;
  }

  /** A scan about to raise the second flag has published, and keeps invalidations away. */
  lemma PublishedByScan(states: seq<State>, events: seq<Event>, j: nat, t: Tid)
    requires Run(states, events) && 0 < j < |states| && PcOf(states[j], t).ScanStoreFully?
    requires PcOf(states[j - 1], t).ScanStoreFully? ==> Published(states, events, j - 1)
    ensures Published(states, events, j)
  {
    hide Apply, Step, PcOf, PendingOf, Inv, Published, MoverPc;
    var p := j - 1;
    OneStep(states, events, p, t);
    if Steps(events, p, t) {
      StoreFullyStep(states[p].mem, t, PcOf(states[p], t), events[p].c, PendingOf(states[p]));
      PublishesNow(states, events, p, t);
    } else {
      RunsKeepInv(states, events, p);
      if events[p].By? {
        NoLoweringMeanwhile(states[p], t, events[p].t);
        MoverAt(states[p], events[p], events[p].t);
      }
      TickLowersNothing(states[p], events[p]);
      PublishedOn(states, events, p);
    }
  }

  lemma TickLowersNothing(s: State, ev: Event)
    ensures ev.Tick? ==> !MoverPc(s, ev).InvLowerFully?
  {
  }

  lemma PublishesNow(states: seq<State>, events: seq<Event>, p: nat, t: Tid)
    requires p + 1 < |states| && Steps(events, p, t) && PcOf(states[p], t).ScanStoreNames?
    ensures Published(states, events, p + 1)
  {
    hide PcOf;
    assert PublishedAt(states, events, p, p + 1);
  }

  lemma NoLoweringMeanwhile(s: State, t: Tid, u: Tid)
    requires Inv(s) && u != t && PcOf(s, t).ScanStoreFully?
    ensures !PcOf(s, u).InvLowerFully?
  {
    hide PcOf, Holds, ThreadsOk, MemOk, SeenOk, SlotsOk;
    LocksApart(s, u, t);
    LoadMutexHeld(PcOf(s, t));
    if PcOf(s, u).InvLowerFully? { LoadMutexHeld(PcOf(s, u)); }
  }

  lemma FullyStep(states: seq<State>, events: seq<Event>, p: nat)
    requires Run(states, events) && p < |events|
    ensures states[p + 1].mem.sh.fully <==>
            (states[p].mem.sh.fully && !MoverPc(states[p], events[p]).InvLowerFully?) || MoverPc(states[p], events[p]).ScanStoreFully?
  {
    EveryEffect(states, events, p);
    hide Run, MoverPc;
  }

  lemma {:induction false} FlagIsPublished(states: seq<State>, events: seq<Event>, j: nat)
    requires Run(states, events) && j < |states|
    ensures states[j].mem.sh.fully ==> Published(states, events, j)
    ensures forall t: Tid :: PcOf(states[j], t).ScanStoreFully? ==> Published(states, events, j)
  {
    hide Apply, PcOf, Published, MoverPc;
    if j == 0 {
      InitIdle();
    } else {
      var p := j - 1;
      FlagIsPublished(states, events, p);
      forall t: Tid | PcOf(states[j], t).ScanStoreFully? ensures Published(states, events, j) {
        PublishedByScan(states, events, j, t);
      }
      FullyStep(states, events, p);
      MoverIs(states[p], events[p]);
      if states[j].mem.sh.fully { PublishedOn(states, events, p); }
    }
  }

  lemma MoverIs(s: State, ev: Event)
    ensures MoverPc(s, ev).ScanStoreFully? ==> ev.By? && PcOf(s, ev.t).ScanStoreFully? && !MoverPc(s, ev).InvLowerFully?
  {
  }

  lemma InitIdle()
    ensures !Init.mem.sh.fully && forall t: Tid :: PcOf(Init, t).Idle?
  {
  }

  /** While the schema is marked fully loaded, some scan has published, and every name it listed is cached and known,
      but for what an invalidation under way at that scan's snapshot had still to clear. */
  lemma FullyMeansListed(states: seq<State>, events: seq<Event>, j: nat) returns (i: nat)
    requires Run(states, events) && j < |states| && states[j].mem.sh.fully
    ensures i < j && events[i].By? && PcOf(states[i], events[i].t).ScanStoreNames?
    ensures var scan := PcOf(states[i], events[i].t); Present(states[j].mem, Spared(scan.listing.Keys, scan.pend))
  {
    hide Apply, PcOf, Present, Spared;
    FlagIsPublished(states, events, j);
    i :| PublishedAt(states, events, i, j);
    FlagsHonest(states, events, i, j);
  }

  lemma PublishStep(m: Mem, t: Tid, pc: Pc, c: Choice, pend: Option<Scope>)
    requires Stage(pc) >= 10 && Step(m, t, pc, c, pend).Some?
    ensures var pc' := Step(m, t, pc, c, pend).value.pc;
            if Stage(pc) == 10 && m.sh.epoch != pc.snap then pc'.Idle?
            else if Stage(pc) == 12 then pc'.Idle?
            else Scanning(pc') && Stage(pc') == Stage(pc) + 1
  {
    hide Spared;
  }

  lemma PublishMovesOn(states: seq<State>, events: seq<Event>, k: nat, t: Tid)
    requires Run(states, events) && k < |events| && Stage(PcOf(states[k], t)) >= 10
    ensures var pc, pc' := PcOf(states[k], t), PcOf(states[k + 1], t);
            if !Steps(events, k, t) then pc' == pc
            else if Stage(pc) == 10 && states[k].mem.sh.epoch != pc.snap then pc'.Idle?
            else if Stage(pc) == 12 then pc'.Idle?
            else Scanning(pc') && Stage(pc') == Stage(pc) + 1
  {
    OneStep(states, events, k, t);
    hide *;
    if Steps(events, k, t) { PublishStep(states[k].mem, t, PcOf(states[k], t), events[k].c, PendingOf(states[k])); }
  }

  lemma {:induction false} PublishesOn(states: seq<State>, events: seq<Event>, k: nat, d: nat, t: Tid)
    requires Run(states, events) && k < d < |states| && Stage(PcOf(states[k + 1], t)) >= 11 && Scanning(PcOf(states[k + 1], t))
    requires forall h :: k < h <= d ==> !PcOf(states[h], t).Idle?
    ensures InOneScan(states, k + 1, d, t) && Stage(PcOf(states[d], t)) >= 11
  {
    hide Apply, PcOf, Scanning, Stage;
    if k + 1 < d {
      PublishesOn(states, events, k, d - 1, t);
      PublishMovesOn(states, events, d - 1, t);
    }
  }

  lemma StageOfStores(pc: Pc)
    ensures (Stage(pc) == 10 <==> pc.ScanCompare?) && (Stage(pc) == 11 <==> pc.ScanStoreNames?) && (Stage(pc) == 12 <==> pc.ScanStoreFully?)
    ensures Stage(pc) <= 12 && (Stage(pc) > 0 ==> !pc.Idle?)
  {
  }

  /** A scan that compares the epoch at `k` and ends at `d` raises both flags, the names first, if no invalidation moved
      the epoch since its snapshot, and ends there and then if one did. */
  lemma ScanRaisesFlags(states: seq<State>, events: seq<Event>, k: nat, d: nat, t: Tid) returns (a: nat, b: nat)
    requires Run(states, events) && k < d < |states| && Steps(events, k, t) && PcOf(states[k], t).ScanCompare?
    requires PcOf(states[d], t).Idle? && forall h :: k < h < d ==> !PcOf(states[h], t).Idle?
    ensures if states[k].mem.sh.epoch == PcOf(states[k], t).snap then
              k + 1 < a < b <= d && states[a].mem.sh.namesLoaded && states[b].mem.sh.fully
            else d == k + 1
  {
    hide Apply, PcOf, Stage, Scanning;
    StageOfStores(PcOf(states[k], t));
    StageOfStores(PcOf(states[d], t));
    PublishMovesOn(states, events, k, t);
    a, b := 0, d;
    if states[k].mem.sh.epoch == PcOf(states[k], t).snap {
      StageOfStores(PcOf(states[k + 1], t));
      var p := d - 1;
      PublishesOn(states, events, k, p, t);
      PublishMovesOn(states, events, p, t);
      StageOfStores(PcOf(states[p], t));
      a := Passed(states, events, k + 1, p, t, 11);
      StageOfStores(PcOf(states[a], t));
      RaisedAt(states, events, a, t);
      RaisedAt(states, events, p, t);
      a := a + 1;
    }
  }

  lemma RaisedAt(states: seq<State>, events: seq<Event>, k: nat, t: Tid)
    requires Run(states, events) && k < |events| && Steps(events, k, t)
    ensures PcOf(states[k], t).ScanStoreNames? ==> states[k + 1].mem.sh.namesLoaded
    ensures PcOf(states[k], t).ScanStoreFully? ==> states[k + 1].mem.sh.fully
  {
    EveryEffect(states, events, k);
    MoverAt(states[k], events[k], t);
    hide Run, PcOf, MoverPc;
  }

  // ---------------------------------------------------------------- what a finished load leaves in the cache

  lemma LoadCarries(m: Mem, t: Tid, pc: Pc, c: Choice, pend: Option<Scope>)
    requires Step(m, t, pc, c, pend).Some? && Fetches(Step(m, t, pc, c, pend).value.pc).Some?
    ensures var pc' := Step(m, t, pc, c, pend).value.pc;
            if Fetches(pc).Some? then
              pc'.snap == pc.snap && Fetches(pc') == Fetches(pc)
              && (pc'.LoadStore? ==> pc.LoadPublish? && pc'.clean == (m.sh.epoch == pc.snap) && pc'.got == pc.got)
            else pc.LoadEnter? && pc'.LoadFetch? && pc'.n == pc.n && pc'.snap == m.sh.epoch
  {
    hide GetStep, LoadStep, ScanStep, InvalidateStep, Fetches, InGet, InLoad, InScan, Begin;
    var pc' := Step(m, t, pc, c, pend).value.pc;
    if pc.Idle? {
      BeginFree(m, t, c);
      FreeFetchesNothing(pc');
    } else if InGet(pc) {
      GetFree(m, t, pc, c);
      FreeFetchesNothing(pc');
    } else if InLoad(pc) {
      LoadStepCarries(m, t, pc, c);
    } else if InScan(pc) {
      ScanFetchesNothing(m, t, pc, c, pend);
    } else {
      InvalidationFetchesNothing(m, t, pc, c);
    }
  }

  lemma FreeFetchesNothing(pc: Pc)
    requires Free(pc) || pc.ScanSnap? || pc.InvWant?
    ensures Fetches(pc) == None
  {
  }

  lemma ScanFetchesNothing(m: Mem, t: Tid, pc: Pc, c: Choice, pend: Option<Scope>)
    requires ScanStep(m, t, pc, c, pend).Some?
    ensures Fetches(ScanStep(m, t, pc, c, pend).value.pc) == None
  {
    hide Fill, Listed, Keep;
  }

  lemma InvalidationFetchesNothing(m: Mem, t: Tid, pc: Pc, c: Choice)
    requires InvalidateStep(m, t, pc, c).Some?
    ensures Fetches(InvalidateStep(m, t, pc, c).value.pc) == None
  {
  }

  lemma LoadStepCarries(m: Mem, t: Tid, pc: Pc, c: Choice)
    requires LoadStep(m, t, pc, c).Some? && Fetches(LoadStep(m, t, pc, c).value.pc).Some?
    ensures var pc' := LoadStep(m, t, pc, c).value.pc;
            if Fetches(pc).Some? then
              pc'.snap == pc.snap && Fetches(pc') == Fetches(pc)
              && (pc'.LoadStore? ==> pc.LoadPublish? && pc'.clean == (m.sh.epoch == pc.snap) && pc'.got == pc.got)
            else pc.LoadEnter? && pc'.LoadFetch? && pc'.n == pc.n && pc'.snap == m.sh.epoch
  {
    hide StoreLoaded;
  }

  /** Thread `t` holds one and the same load slot from `i` on. */
  ghost predicate InOneLoad(states: seq<State>, i: nat, j: nat, t: Tid) {
    j < |states| && forall k :: i <= k <= j ==> Fetches(PcOf(states[k], t)).Some?
  }

  lemma {:induction false} SnapKept(states: seq<State>, events: seq<Event>, i: nat, j: nat, t: Tid)
    requires Run(states, events) && i <= j && InOneLoad(states, i, j, t)
    ensures PcOf(states[j], t).snap == PcOf(states[i], t).snap && Fetches(PcOf(states[j], t)) == Fetches(PcOf(states[i], t))
  {
    hide Apply, Step, PcOf, PendingOf, Fetches;
    if i < j {
      SnapKept(states, events, i, j - 1, t);
      LoadMoves(states, events, j - 1, t);
    }
  }

  lemma LoadMoves(states: seq<State>, events: seq<Event>, k: nat, t: Tid)
    requires Run(states, events) && k < |events| && Fetches(PcOf(states[k + 1], t)).Some?
    ensures var pc, pc' := PcOf(states[k], t), PcOf(states[k + 1], t);
            if !Steps(events, k, t) then pc' == pc
            else if Fetches(pc).Some? then
              pc'.snap == pc.snap && Fetches(pc') == Fetches(pc)
              && (pc'.LoadStore? ==> pc.LoadPublish? && pc'.clean == (states[k].mem.sh.epoch == pc.snap) && pc'.got == pc.got)
            else pc.LoadEnter? && pc'.LoadFetch? && pc'.n == pc.n && pc'.snap == states[k].mem.sh.epoch
  {
    OneStep(states, events, k, t);
    hide *;
    if Steps(events, k, t) { LoadCarries(states[k].mem, t, PcOf(states[k], t), events[k].c, PendingOf(states[k])); }
  }

  lemma {:induction false} StoreIsClean(states: seq<State>, events: seq<Event>, p: nat, l: nat, t: Tid)
    requires Run(states, events) && p < l && Steps(events, p, t) && PcOf(states[p], t).LoadPublish?
    requires InOneLoad(states, p, l, t) && PcOf(states[l], t).LoadStore?
    ensures PcOf(states[l], t).clean == (states[p].mem.sh.epoch == PcOf(states[p], t).snap)
  {
    hide Apply, PcOf, Fetches;
    LoadMoves(states, events, l - 1, t);
    if p < l - 1 {
      if Steps(events, l - 1, t) {
        NoWayBack(states, events, p, l - 1, t);
      } else {
        StoreIsClean(states, events, p, l - 1, t);
      }
    }
  }

  lemma PublishMoves(m: Mem, t: Tid, pc: Pc, c: Choice, pend: Option<Scope>)
    requires (pc.LoadPublish? || pc.LoadStore?) && Step(m, t, pc, c, pend).Some?
    ensures var pc' := Step(m, t, pc, c, pend).value.pc; pc'.LoadStore? || Fetches(pc').None?
  {
    hide StoreLoaded;
  }

  /** After it has compared, a load stays past its comparison until it gives the slot back. */
  lemma {:induction false} NoWayBack(states: seq<State>, events: seq<Event>, p: nat, k: nat, t: Tid)
    requires Run(states, events) && p < k && Steps(events, p, t) && PcOf(states[p], t).LoadPublish? && InOneLoad(states, p, k, t)
    ensures PcOf(states[k], t).LoadStore?
  {
    hide Apply, Step, PcOf, PendingOf, Fetches;
    var q := k - 1;
    if p < q { NoWayBack(states, events, p, q, t); }
    OneStep(states, events, q, t);
    if Steps(events, q, t) { PublishMoves(states[q].mem, t, PcOf(states[q], t), events[q].c, PendingOf(states[q])); }
  }

  lemma StoresNamed(s: State, t: Tid)
    requires Inv(s) && PcOf(s, t).LoadStore?
    ensures PcOf(s, t).got.Some? ==> PcOf(s, t).got.value.name == PcOf(s, t).n
  {
    ThreadAt(s, t);
    hide Inv, PcOf, Since, Cleared, Owns;
  }

  /** A load that took its slot at `i`, compared the epoch at `p` and gave the slot back at `l` leaves what was cached
      for its name; with nothing cached, it leaves what the server found if the epoch did not move between `i` and
      `p`, and nothing if it did. */
  lemma LoadCaches(states: seq<State>, events: seq<Event>, i: nat, p: nat, l: nat, t: Tid)
    requires Run(states, events) && i < p < l < |events| && Steps(events, i, t) && Steps(events, p, t) && Steps(events, l, t)
    requires PcOf(states[i], t).LoadEnter? && PcOf(states[p], t).LoadPublish? && PcOf(states[l], t).LoadStore?
    requires InOneLoad(states, i + 1, l, t)
    ensures var n, m := PcOf(states[i], t).n, states[l].mem;
            PcOf(states[l], t).n == n
            && CachedFor(states[l + 1].mem, n)
               == if n in m.sh.entries then Some(m.sh.entries[n])
                  else if states[p].mem.sh.epoch == states[i].mem.sh.epoch then PcOf(states[l], t).got
                  else None
  {
    hide Apply, PcOf, Inv;
    EntersOnly(PcOf(states[i], t));
    LoadMoves(states, events, i, t);
    SnapKept(states, events, i + 1, p, t);
    SnapKept(states, events, i + 1, l, t);
    StoreIsClean(states, events, p, l, t);
    RunsKeepInv(states, events, l);
    StoresNamed(states[l], t);
    EveryEffect(states, events, l);
    MoverAt(states[l], events[l], t);
    hide MoverPc, FlagsBy;
    var n := PcOf(states[i], t).n;
    assert CachedFor(states[l + 1].mem, n) == CachedBy(states[l].mem, PcOf(states[l], t), n);
  }

  lemma EntersOnly(pc: Pc)
    ensures pc.LoadEnter? ==> Fetches(pc).None?
  {
  }

  lemma MoverAt(s: State, ev: Event, t: Tid)
    requires ev.By? && ev.t == t
    ensures MoverPc(s, ev) == PcOf(s, t)
  {
  }
}
