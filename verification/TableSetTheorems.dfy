/** What holds from one point of a run to a later one: cleared names stay cleared, and flags stand for full containers. */
module TableSetTheorems {
  import opened Staging
  import opened TableSet
  import opened TableSetSafety
  import opened TableSetRuns

  // ---------------------------------------------------------------- invalidations hold

  /** Clears only move forward, and the bumps are never forgotten. */
  ghost predicate Grows(m: Mem, m': Mem, n: Name) { Cleared(m, n) <= Cleared(m', n) && m.bumpClock <= m'.bumpClock }

  lemma ClearGrows(m: Mem, t: Tid, pc: Pc, c: Choice, n: Name)
    requires MemOk(m) && ThreadOk(m, t, pc) && pc.InvEntryClear?
    ensures var m' := InvalidateStep(m, t, pc, c).value.mem;
            Grows(m, m', n) && (pc.scope == All || pc.scope == One(n) ==> pc.epoch <= Cleared(m', n))
  {
    hide EntriesOk, BumpsOk, Present;
  }

  lemma StepGrows(s: State, ev: Event, n: Name)
    requires Inv(s) && Apply(s, ev).Some?
    ensures Grows(s.mem, Apply(s, ev).value.mem, n)
  {
    if ev.By? {
      var t, c := ev.t, ev.c;
      DoIs(s, t, c);
      var pc, pend := PcOf(s, t), PendingOf(s);
      hide Do, Step, Cleared, MemOk, ThreadOk, LocksOk, SeenOk, SlotsOk, PcOf, GetStep, LoadStep, ScanStep, InvalidateStep;
      StepGuarantees(s.mem, t, pc, c, pend);
      if pc.InvEntryClear? {
        ClearIsInvalidate(s.mem, t, pc, c, pend);
        ClearGrows(s.mem, t, pc, c, n);
      } else {
        SameCleared(s.mem, Apply(s, ev).value.mem, n);
      }
    }
  }

  lemma ClearIsInvalidate(m: Mem, t: Tid, pc: Pc, c: Choice, pend: Option<Scope>)
    requires pc.InvEntryClear?
    ensures Step(m, t, pc, c, pend) == InvalidateStep(m, t, pc, c)
  {
  }

  lemma {:induction false} RunGrows(states: seq<State>, events: seq<Event>, i: nat, j: nat, n: Name)
    requires Run(states, events) && i <= j < |states|
    ensures Grows(states[i].mem, states[j].mem, n)
  {
    hide Apply, Cleared, Inv;
    if i < j {
      RunGrows(states, events, i, j - 1, n);
      RunsKeepInv(states, events, j - 1);
      StepGrows(states[j - 1], events[j - 1], n);
    }
  }

  /** Once an invalidation covering `n` has cleared, no later state caches an entry for `n` that was loaded under an
      older epoch or read from the server before that invalidation moved the epoch. A load that began earlier may
      still hand its own entry to its own caller: it does not cache it. */
  lemma InvalidationHolds(states: seq<State>, events: seq<Event>, i: nat, j: nat, n: Name)
    requires Run(states, events) && i < j < |states|
    requires events[i].By? && PcOf(states[i], events[i].t).InvEntryClear?
    requires PcOf(states[i], events[i].t).scope == All || PcOf(states[i], events[i].t).scope == One(n)
    requires n in states[j].mem.sh.entries
    ensures var e := PcOf(states[i], events[i].t).epoch; var served := states[j].mem.sh.entries[n];
            e < |states[i].mem.bumpClock| && e <= served.snap && states[i].mem.bumpClock[e] <= served.readAt
  {
    var s, t, c := states[i], events[i].t, events[i].c;
    RunsKeepInv(states, events, i);
    RunsKeepInv(states, events, j);
    RunGrows(states, events, i, i + 1, n);
    RunGrows(states, events, i + 1, j, n);
    EntriesAreFresh(states, events, j, n);
    assert Apply(s, events[i]) == Some(states[i + 1]);
    assert PcOf(s, t).epoch <= Cleared(states[i + 1].mem, n) && PcOf(s, t).epoch == s.mem.sh.epoch by {
      hide Cleared, Do, Step, MemOk, LocksOk, SeenOk, SlotsOk;
      DoIs(s, t, c);
      ClearIsInvalidate(s.mem, t, PcOf(s, t), c, PendingOf(s));
      ClearGrows(s.mem, t, PcOf(s, t), c, n);
      assert ThreadOk(s.mem, t, PcOf(s, t));
    }
    assert BumpsOk(s.mem) && BumpsOk(states[j].mem);
  }

  // ---------------------------------------------------------------- flags over full containers

  /** After a scan has published, and until an invalidation lowers the flags, every name of the listing it loaded is
      in both containers, but for what an invalidation under way at its snapshot had still to clear. */
  lemma {:induction false} FlagsHonest(states: seq<State>, events: seq<Event>, i: nat, j: nat)
    requires Run(states, events) && i < j < |states|
    requires events[i].By? && PcOf(states[i], events[i].t).ScanStoreNames?
    requires forall k :: i < k < j && events[k].By? ==> !PcOf(states[k], events[k].t).InvLowerFully?
    ensures var scan := PcOf(states[i], events[i].t); var names := Spared(scan.listing.Keys, scan.pend);
            names <= states[j].mem.published && Present(states[j].mem, names)
  {
    hide Do, Step, ThreadsOk, LocksOk, SeenOk, SlotsOk, BumpsOk, ClearsOk, EntriesOk, PcOf, Spared;
    RunsKeepInv(states, events, j);
    var p := j - 1;
    RunsKeepInv(states, events, p);
    assert Apply(states[p], events[p]) == Some(states[j]);
    if p == i {
      StorePublishes(states[p], events[p].t, events[p].c);
    } else {
      FlagsHonest(states, events, i, p);
      if events[p].By? {
        var t, c := events[p].t, events[p].c;
        DoIs(states[p], t, c);
        assert ThreadOk(states[p].mem, t, PcOf(states[p], t)) by { ThreadAt(states[p], t); }
        hide ThreadOk;
        StepGuarantees(states[p].mem, t, PcOf(states[p], t), c, PendingOf(states[p]));
      }
    }
  }

  lemma ThreadAt(s: State, t: Tid)
    requires Inv(s)
    ensures ThreadOk(s.mem, t, PcOf(s, t))
  {
    hide ThreadOk;
  }

  lemma StorePublishes(s: State, t: Tid, c: Choice)
    requires PcOf(s, t).ScanStoreNames? && Do(s, t, c).Some?
    ensures Spared(PcOf(s, t).listing.Keys, PcOf(s, t).pend) <= Do(s, t, c).value.mem.published
  {
    DoIs(s, t, c);
    StoreStep(s.mem, t, PcOf(s, t), c, PendingOf(s));
    hide *;
  }

  lemma StoreStep(m: Mem, t: Tid, pc: Pc, c: Choice, pend: Option<Scope>)
    requires pc.ScanStoreNames?
    ensures Step(m, t, pc, c, pend).Some? && Spared(pc.listing.Keys, pc.pend) <= Step(m, t, pc, c, pend).value.mem.published
  {
    hide Spared;
  }

  /** What a scan knows of the invalidation under way, it found out at its snapshot. */
  lemma {:induction false} SnapshotCarried(states: seq<State>, events: seq<Event>, h: nat, i: nat, t: Tid)
    requires Run(states, events) && h < i < |states|
    requires events[h].By? && events[h].t == t && PcOf(states[h], t).ScanSnap?
    requires forall k :: h < k <= i ==> Scanning(PcOf(states[k], t))
    ensures Scanning(PcOf(states[i], t)) && PcOf(states[i], t).pend == PendingOf(states[h])
    ensures PcOf(states[i], t).snap == states[h].mem.sh.epoch
  {
    hide Do, Step, PcOf, PendingOf, ScanStep, Holds, Relock, Owned, Scanning;
    var p := i - 1;
    assert Apply(states[p], events[p]) == Some(states[i]);
    if p > h { SnapshotCarried(states, events, h, p, t); }
    if events[p].By? {
      var c := events[p].c;
      DoIs(states[p], events[p].t, c);
      if events[p].t == t {
        Kinds(states[p].mem, t, PcOf(states[p], t), c, PendingOf(states[p]));
        ScanGoesOn(states[p].mem, t, PcOf(states[p], t), c, PendingOf(states[p]));
        if p > h { PastSnapshot(PcOf(states[p], t)); }
      }
    } else {
      TickMovesNobody(states[p], t);
    }
  }

  lemma PastSnapshot(pc: Pc)
    requires Scanning(pc)
    ensures !pc.ScanSnap?
  {
  }

  lemma TickMovesNobody(s: State, t: Tid)
    ensures PcOf(Apply(s, Tick).value, t) == PcOf(s, t)
  {
  }

  /** So the snapshot decides: what a scan lists is in both containers while its flags are up, unless an invalidation
      covering it was under way, past its bump and short of its last clear, when the scan read the epoch. With
      `load_mutex_` free at that moment nothing is excepted. */
  lemma SnapshotDecides(states: seq<State>, events: seq<Event>, h: nat, i: nat, j: nat, n: Name)
    requires Run(states, events) && h < i < j < |states|
    requires events[h].By? && PcOf(states[h], events[h].t).ScanSnap?
    requires forall k :: h < k <= i ==> Scanning(PcOf(states[k], events[h].t))
    requires events[i].By? && events[i].t == events[h].t && PcOf(states[i], events[i].t).ScanStoreNames?
    requires forall k :: i < k < j && events[k].By? ==> !PcOf(states[k], events[k].t).InvLowerFully?
    requires n in PcOf(states[i], events[i].t).listing
    requires LoadMutex !in states[h].locks || !(exists u: Tid :: Pending(PcOf(states[h], u)) && Covers(PcOf(states[h], u).scope, n))
    ensures n in states[j].mem.sh.entries && n in states[j].mem.sh.known
  {
    hide PcOf, Apply, Pending;
    FlagsHonest(states, events, i, j);
    SnapshotCarried(states, events, h, i, events[h].t);
    PendingIs(states[h]);
  }

  lemma PendingIs(s: State)
    ensures PendingOf(s).Some? ==> LoadMutex in s.locks && exists u: Tid :: Pending(PcOf(s, u)) && PcOf(s, u).scope == PendingOf(s).value
  {
    hide PcOf;
    if PendingOf(s).Some? { assert Pending(PcOf(s, s.locks[LoadMutex])); }
  }
}
