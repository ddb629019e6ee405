/** What every step of the table-set cache keeps, whatever the number of threads and however they interleave. Each
    thread's own assertion is kept by its steps, and by the steps of the others because of the mutexes it holds. */
module TableSetSafety {
  import opened Staging
  import opened TableSet

  // ---------------------------------------------------------------- what holds of the memory

  /** `e` may be served for `n`: no invalidation covering `n` that has cleared came after the load began, and the
      server's answer is no older than the bump the load saw. */
  ghost predicate EntryOk(m: Mem, n: Name, e: Entry) {
    e.name == n && Cleared(m, n) <= e.snap < |m.bumpClock| && m.bumpClock[e.snap] <= e.readAt <= m.clock
  }

  ghost predicate BumpsOk(m: Mem) {
    && |m.bumpClock| == m.sh.epoch + 1
    && (forall i, j :: 0 <= i <= j < |m.bumpClock| ==> m.bumpClock[i] <= m.bumpClock[j])
    && (forall i :: 0 <= i < |m.bumpClock| ==> m.bumpClock[i] <= m.clock)
  }

  ghost predicate ClearsOk(m: Mem) {
    m.clearedAll <= m.sh.epoch && forall n :: n in m.clearedName ==> m.clearedName[n] <= m.sh.epoch
  }

  ghost predicate EntriesOk(m: Mem) { forall n :: n in m.sh.entries ==> EntryOk(m, n, m.sh.entries[n]) }

  ghost predicate Present(m: Mem, names: set<Name>) { names <= m.sh.entries.Keys && names <= m.sh.known }

  ghost predicate MemOk(m: Mem) { BumpsOk(m) && ClearsOk(m) && EntriesOk(m) && Present(m, m.published) }

  // ---------------------------------------------------------------- what holds of a thread

  ghost predicate Owns(m: Mem, n: Name, t: Tid) { n in m.sh.loads && m.sh.loads[n] == t }

  ghost predicate Since(m: Mem, snap: nat, at: nat) { snap < |m.bumpClock| && m.bumpClock[snap] <= at <= m.clock }

  ghost predicate FetchOk(m: Mem, n: Name, snap: nat, got: Option<Entry>) {
    snap < |m.bumpClock|
    && (got.Some? ==> got.value.name == n && got.value.snap == snap && Since(m, snap, got.value.readAt))
  }

  ghost predicate ListingOk(m: Mem, snap: nat, listing: map<Name, nat>) {
    snap < |m.bumpClock| && forall n :: n in listing ==> Since(m, snap, listing[n])
  }

  /** While the snapshot is the epoch: names that had entries still have them, but for what was still to be cleared. */
  ghost predicate HaveOk(m: Mem, snap: nat, pend: Option<Scope>, have: set<Name>) {
    snap == m.sh.epoch ==> Spared(have, pend) <= m.sh.entries.Keys
  }

  ghost predicate FilledOk(m: Mem, snap: nat, pend: Option<Scope>, listing: map<Name, nat>) {
    snap < |m.bumpClock| && (snap == m.sh.epoch ==> Present(m, Spared(listing.Keys, pend)))
  }

  ghost predicate NoneClearedSince(m: Mem, snap: nat) { forall n: Name :: Cleared(m, n) <= snap }

  ghost predicate ThreadOk(m: Mem, t: Tid, pc: Pc) {
    match pc
    case LoadFetch(n, snap, since) => Owns(m, n, t) && Since(m, snap, since)
    case LoadPublishWant(n, snap, got, _) => Owns(m, n, t) && FetchOk(m, n, snap, got)
    case LoadPublish(n, snap, got, _) => Owns(m, n, t) && FetchOk(m, n, snap, got)
    case LoadStore(n, snap, got, _, clean) =>
      Owns(m, n, t) && FetchOk(m, n, snap, got) && (clean ==> Cleared(m, n) <= snap)
    case ScanLoad(snap, _, since) => Since(m, snap, since)
    case ScanHaveWant(snap, _, listing) => ListingOk(m, snap, listing)
    case ScanHave(snap, _, listing) => ListingOk(m, snap, listing)
    case ScanNamesWant(snap, pend, listing, have) => ListingOk(m, snap, listing) && HaveOk(m, snap, pend, have)
    case ScanEntryWant(snap, pend, listing, have) => ListingOk(m, snap, listing) && HaveOk(m, snap, pend, have)
    case ScanEpoch(snap, pend, listing, have) => ListingOk(m, snap, listing) && HaveOk(m, snap, pend, have)
    case ScanFill(snap, pend, listing, have, clean) =>
      ListingOk(m, snap, listing) && HaveOk(m, snap, pend, have)
      && (snap == m.sh.epoch ==> clean) && (clean ==> NoneClearedSince(m, snap))
    case ScanCallback(snap, pend, listing, _, _) => FilledOk(m, snap, pend, listing)
    case ScanHand(snap, pend, listing, _, _, _) => FilledOk(m, snap, pend, listing)
    case ScanPublishWant(snap, pend, listing, _) => FilledOk(m, snap, pend, listing)
    case ScanCompare(snap, pend, listing, _) => FilledOk(m, snap, pend, listing)
    case ScanStoreNames(snap, pend, listing, _) => snap == m.sh.epoch && FilledOk(m, snap, pend, listing)
    case ScanStoreFully(snap, pend, listing, _) => snap == m.sh.epoch && FilledOk(m, snap, pend, listing)
    case InvLowerFully(_, e) => e == m.sh.epoch
    case InvLowerNames(_, e) => e == m.sh.epoch && m.published == {}
    case InvEntryWant(_, e) => e == m.sh.epoch && m.published == {}
    case InvEntryClear(_, e) => e == m.sh.epoch && m.published == {}
    case InvNamesWant(_, e) => e == m.sh.epoch && m.published == {}
    case InvNamesClear(_, e) => e == m.sh.epoch && m.published == {}
    case _ => true
  }

  /** An invalidation has moved the epoch and not finished. */
  predicate PostBump(pc: Pc) {
    pc.InvLowerFully? || pc.InvLowerNames? || pc.InvEntryWant? || pc.InvEntryClear? || pc.InvNamesWant? || pc.InvNamesClear?
  }

  predicate Scanning(pc: Pc) { InScan(pc) && !pc.ScanSnap? }

  /** A scan before it takes `names_mutex_`. */
  predicate Early(pc: Pc) { pc.ScanLoad? || pc.ScanHaveWant? || pc.ScanHave? || pc.ScanNamesWant? }

  /** A scan whose snapshot is the epoch `e` knows what an invalidation past its bump clears, unless that one is
      already at its last clear and the scan has the names still to record. */
  predicate Knows(scan: Pc, inv: Pc, e: nat) {
    Scanning(scan) && PostBump(inv) && scan.snap == e ==>
      scan.pend == Some(inv.scope) || (inv.InvNamesClear? && Early(scan))
  }

  // ---------------------------------------------------------------- what a step may do to the others

  /** The most a step of thread `t` at `pc` does to the memory. */
  ghost predicate Guarantee(m: Mem, t: Tid, pc: Pc, m': Mem) {
    && m.clock <= m'.clock && m.bumpClock <= m'.bumpClock
    && m'.sh.epoch == (if pc.InvBump? then m.sh.epoch + 1 else m.sh.epoch)
    && (!pc.InvEntryClear? ==>
         m.sh.entries.Keys <= m'.sh.entries.Keys && m'.clearedAll == m.clearedAll && m'.clearedName == m.clearedName)
    && (pc.InvEntryClear? ==> Spared(m.sh.entries.Keys, Some(pc.scope)) <= m'.sh.entries.Keys)
    && (!pc.InvNamesClear? ==> m.sh.known <= m'.sh.known)
    && (pc.InvNamesClear? ==> Spared(m.sh.known, Some(pc.scope)) <= m'.sh.known)
    && (!pc.ScanStoreNames? ==> m'.published <= m.published) && (!pc.InvLowerFully? ==> m.published <= m'.published)
    && (forall n :: n in m.sh.loads && m.sh.loads[n] != t ==> n in m'.sh.loads && m'.sh.loads[n] == m.sh.loads[n])
  }

  /** Nothing but the negative answers, the flags, the anchors and the object counter differs. */
  ghost predicate SameTables(m: Mem, m': Mem) {
    m'.(anchors := m.anchors, gen := m.gen,
        sh := m'.sh.(attempted := m.sh.attempted, namesLoaded := m.sh.namesLoaded, fully := m.sh.fully)) == m
  }

  lemma GetSameTables(m: Mem, t: Tid, pc: Pc, c: Choice)
    requires GetStep(m, t, pc, c).Some?
    ensures SameTables(m, GetStep(m, t, pc, c).value.mem)
  {
    hide AnchorsOf;
  }

  /** Program counters that assert nothing about the memory. */
  predicate Free(pc: Pc) { pc.Idle? || pc.LoadWant? || InGet(pc) }

  lemma GetFree(m: Mem, t: Tid, pc: Pc, c: Choice)
    requires GetStep(m, t, pc, c).Some?
    ensures Free(GetStep(m, t, pc, c).value.pc)
  {
    hide AnchorsOf, Keep;
  }

  lemma FreeOk(m: Mem, t: Tid, pc: Pc)
    requires Free(pc)
    ensures ThreadOk(m, t, pc)
  {
  }

  lemma SameGuarantees(m: Mem, t: Tid, pc: Pc, m': Mem)
    requires SameTables(m, m') && !pc.InvBump?
    ensures Guarantee(m, t, pc, m')
  {
  }

  lemma LoadGuarantees(m: Mem, t: Tid, pc: Pc, c: Choice)
    requires ThreadOk(m, t, pc) && LoadStep(m, t, pc, c).Some?
    ensures Guarantee(m, t, pc, LoadStep(m, t, pc, c).value.mem)
  {
    hide Cleared, Guarantee;
    var a := LoadStep(m, t, pc, c).value;
    if pc.LoadEnter? || pc.LoadStore? {
      LoadStoreGuarantees(m, t, pc, c);
    } else {
      assert SameTables(m, a.mem);
      SameGuarantees(m, t, pc, a.mem);
    }
  }

  lemma LoadStoreGuarantees(m: Mem, t: Tid, pc: Pc, c: Choice)
    requires ThreadOk(m, t, pc) && (pc.LoadEnter? || pc.LoadStore?) && LoadStep(m, t, pc, c).Some?
    ensures Guarantee(m, t, pc, LoadStep(m, t, pc, c).value.mem)
  {
    hide Cleared, FetchOk;
  }

  lemma ScanGuarantees(m: Mem, t: Tid, pc: Pc, c: Choice, pend: Option<Scope>)
    requires ScanStep(m, t, pc, c, pend).Some?
    ensures Guarantee(m, t, pc, ScanStep(m, t, pc, c, pend).value.mem)
  {
    hide Cleared, Listed;
  }

  lemma InvalidateGuarantees(m: Mem, t: Tid, pc: Pc, c: Choice)
    requires InvalidateStep(m, t, pc, c).Some?
    ensures Guarantee(m, t, pc, InvalidateStep(m, t, pc, c).value.mem)
  {
  }

  lemma StepGuarantees(m: Mem, t: Tid, pc: Pc, c: Choice, pend: Option<Scope>)
    requires ThreadOk(m, t, pc) && Step(m, t, pc, c, pend).Some?
    ensures Guarantee(m, t, pc, Step(m, t, pc, c, pend).value.mem)
  {
    hide GetStep, LoadStep, ScanStep, InvalidateStep, ThreadOk, Guarantee;
    var m' := Step(m, t, pc, c, pend).value.mem;
    if pc.Idle? {
      SameGuarantees(m, t, pc, m');
    } else if InGet(pc) {
      GetSameTables(m, t, pc, c);
      SameGuarantees(m, t, pc, m');
    } else if InLoad(pc) {
      LoadGuarantees(m, t, pc, c);
    } else if InScan(pc) {
      ScanGuarantees(m, t, pc, c, pend);
    } else {
      InvalidateGuarantees(m, t, pc, c);
    }
  }

  // ---------------------------------------------------------------- no thread's assertion is disturbed by another

  predicate NeedsLoadMutex(pc: Pc) { pc.ScanStoreNames? || pc.ScanStoreFully? || PostBump(pc) }

  predicate NeedsEntryMutex(pc: Pc) { pc.LoadStore? || pc.ScanFill? }

  ghost predicate Apart(pc: Pc, pcu: Pc) { forall l: Lock :: !(l in Holds(pc) && l in Holds(pcu)) }

  /** What two threads' mutexes say about where both can be. */
  ghost predicate Excluded(pc: Pc, pcu: Pc) {
    && (pc.InvBump? || NeedsLoadMutex(pc) ==> !NeedsLoadMutex(pcu))
    && (pc.InvEntryClear? ==> !NeedsEntryMutex(pcu))
  }

  lemma LoadMutexHeld(pc: Pc)
    requires NeedsLoadMutex(pc) || pc.InvBump?
    ensures LoadMutex in Holds(pc)
  {
  }

  lemma EntryMutexHeld(pc: Pc)
    requires NeedsEntryMutex(pc) || pc.InvEntryClear?
    ensures EntryMutex in Holds(pc)
  {
  }

  lemma LoadMutexExcludes(pc: Pc, pcu: Pc)
    requires LoadMutex !in Holds(pc) || LoadMutex !in Holds(pcu)
    requires NeedsLoadMutex(pc) || pc.InvBump?
    ensures !NeedsLoadMutex(pcu)
  {
    hide Holds, NeedsLoadMutex;
    LoadMutexHeld(pc);
    if NeedsLoadMutex(pcu) { LoadMutexHeld(pcu); }
  }

  lemma EntryMutexExcludes(pc: Pc, pcu: Pc)
    requires EntryMutex !in Holds(pc) || EntryMutex !in Holds(pcu)
    requires pc.InvEntryClear?
    ensures !NeedsEntryMutex(pcu)
  {
    hide Holds, NeedsEntryMutex;
    EntryMutexHeld(pc);
    if NeedsEntryMutex(pcu) { EntryMutexHeld(pcu); }
  }

  lemma NotBoth(pc: Pc, pcu: Pc)
    requires Apart(pc, pcu)
    ensures LoadMutex !in Holds(pc) || LoadMutex !in Holds(pcu)
    ensures EntryMutex !in Holds(pc) || EntryMutex !in Holds(pcu)
  {
    hide Holds;
  }

  lemma MutexesExclude(pc: Pc, pcu: Pc)
    requires LoadMutex !in Holds(pc) || LoadMutex !in Holds(pcu)
    requires EntryMutex !in Holds(pc) || EntryMutex !in Holds(pcu)
    ensures Excluded(pc, pcu)
  {
    hide Holds, NeedsLoadMutex, NeedsEntryMutex, PostBump;
    if NeedsLoadMutex(pc) || pc.InvBump? { LoadMutexExcludes(pc, pcu); }
    if pc.InvEntryClear? { EntryMutexExcludes(pc, pcu); }
  }

  lemma SinceStable(m: Mem, m': Mem, snap: nat, at: nat)
    requires Since(m, snap, at) && m.clock <= m'.clock && m.bumpClock <= m'.bumpClock
    ensures Since(m', snap, at)
  {
  }

  lemma ListingStable(m: Mem, m': Mem, snap: nat, listing: map<Name, nat>)
    requires ListingOk(m, snap, listing) && m.clock <= m'.clock && m.bumpClock <= m'.bumpClock
    ensures ListingOk(m', snap, listing)
  {
    forall n | n in listing ensures Since(m', snap, listing[n]) { SinceStable(m, m', snap, listing[n]); }
  }

  lemma ClearsStable(m: Mem, m': Mem, snap: nat)
    requires NoneClearedSince(m, snap) && m'.clearedAll == m.clearedAll && m'.clearedName == m.clearedName
    ensures NoneClearedSince(m', snap)
  {
    forall n: Name ensures Cleared(m', n) <= snap { assert Cleared(m, n) <= snap; }
  }

  lemma StableLoad(m: Mem, t: Tid, pc: Pc, m': Mem, u: Tid, pcu: Pc)
    requires u != t && Guarantee(m, t, pc, m') && ThreadOk(m, u, pcu) && BumpsOk(m) && InLoad(pcu)
    requires Excluded(pc, pcu)
    ensures ThreadOk(m', u, pcu)
  {
    if pcu.LoadFetch? {
      SinceStable(m, m', pcu.snap, pcu.since);
    } else if (pcu.LoadPublishWant? || pcu.LoadPublish? || pcu.LoadStore?) && pcu.got.Some? {
      SinceStable(m, m', pcu.snap, pcu.got.value.readAt);
    }
  }

  lemma StableListing(m: Mem, t: Tid, pc: Pc, m': Mem, u: Tid, pcu: Pc)
    requires Guarantee(m, t, pc, m') && ThreadOk(m, u, pcu) && BumpsOk(m)
    requires pcu.ScanLoad? || pcu.ScanHaveWant? || pcu.ScanHave?
    ensures ThreadOk(m', u, pcu)
  {
    hide ListingOk, Cleared, NoneClearedSince, Since;
    if pcu.ScanLoad? {
      SinceStable(m, m', pcu.snap, pcu.since);
    } else {
      ListingStable(m, m', pcu.snap, pcu.listing);
    }
  }

  lemma StableHave(m: Mem, t: Tid, pc: Pc, m': Mem, u: Tid, pcu: Pc)
    requires Guarantee(m, t, pc, m') && ThreadOk(m, u, pcu) && BumpsOk(m)
    requires pcu.ScanNamesWant? || pcu.ScanEntryWant? || pcu.ScanEpoch?
    requires Knows(pcu, pc, m.sh.epoch)
    ensures ThreadOk(m', u, pcu)
  {
    hide ListingOk, Cleared, NoneClearedSince, Since, HaveOk;
    ListingStable(m, m', pcu.snap, pcu.listing);
    ListingBounded(m, pcu.snap, pcu.listing);
    HaveStable(m, t, pc, m', pcu);
  }

  lemma HaveStable(m: Mem, t: Tid, pc: Pc, m': Mem, pcu: Pc)
    requires Guarantee(m, t, pc, m') && BumpsOk(m)
    requires pcu.ScanNamesWant? || pcu.ScanEntryWant? || pcu.ScanEpoch? || pcu.ScanFill?
    requires pcu.snap < |m.bumpClock| && HaveOk(m, pcu.snap, pcu.pend, pcu.have)
    requires Knows(pcu, pc, m.sh.epoch)
    ensures HaveOk(m', pcu.snap, pcu.pend, pcu.have)
  {
    hide Cleared;
  }

  lemma FilledStable(m: Mem, t: Tid, pc: Pc, m': Mem, pcu: Pc)
    requires Guarantee(m, t, pc, m') && BumpsOk(m)
    requires pcu.ScanCallback? || pcu.ScanHand? || pcu.ScanPublishWant? || pcu.ScanCompare? || pcu.ScanStoreNames? || pcu.ScanStoreFully?
    requires FilledOk(m, pcu.snap, pcu.pend, pcu.listing)
    requires Knows(pcu, pc, m.sh.epoch)
    ensures FilledOk(m', pcu.snap, pcu.pend, pcu.listing)
  {
    hide Cleared;
  }

  lemma StableFill(m: Mem, t: Tid, pc: Pc, m': Mem, u: Tid, pcu: Pc)
    requires Guarantee(m, t, pc, m') && ThreadOk(m, u, pcu) && BumpsOk(m) && pcu.ScanFill? && Excluded(pc, pcu)
    requires Knows(pcu, pc, m.sh.epoch)
    ensures ThreadOk(m', u, pcu)
  {
    hide ListingOk, Cleared, NoneClearedSince, Since, HaveOk;
    ListingBounded(m, pcu.snap, pcu.listing);
    HaveStable(m, t, pc, m', pcu);
    ListingStable(m, m', pcu.snap, pcu.listing);
    ListingBounded(m, pcu.snap, pcu.listing);
    if pcu.clean { ClearsStable(m, m', pcu.snap); }
  }

  lemma StableFilled(m: Mem, t: Tid, pc: Pc, m': Mem, u: Tid, pcu: Pc)
    requires Guarantee(m, t, pc, m') && ThreadOk(m, u, pcu) && BumpsOk(m)
    requires pcu.ScanCallback? || pcu.ScanHand? || pcu.ScanPublishWant? || pcu.ScanCompare? || pcu.ScanStoreNames? || pcu.ScanStoreFully?
    requires Excluded(pc, pcu) && Knows(pcu, pc, m.sh.epoch)
    ensures ThreadOk(m', u, pcu)
  {
    hide FilledOk, Cleared;
    FilledStable(m, t, pc, m', pcu);
  }

  lemma ListingBounded(m: Mem, snap: nat, listing: map<Name, nat>)
    requires ListingOk(m, snap, listing)
    ensures snap < |m.bumpClock|
  {
  }

  lemma StableInvalidate(m: Mem, t: Tid, pc: Pc, m': Mem, u: Tid, pcu: Pc)
    requires Guarantee(m, t, pc, m') && ThreadOk(m, u, pcu) && Excluded(pc, pcu) && PostBump(pcu)
    ensures ThreadOk(m', u, pcu)
  {
  }

  lemma Stable(m: Mem, t: Tid, pc: Pc, m': Mem, u: Tid, pcu: Pc)
    requires u != t && Guarantee(m, t, pc, m') && ThreadOk(m, u, pcu) && BumpsOk(m)
    requires Apart(pc, pcu)
    requires Knows(pcu, pc, m.sh.epoch)
    ensures ThreadOk(m', u, pcu)
  {
    hide Guarantee, BumpsOk, Apart, Holds, Excluded, ListingOk, FetchOk, Since, Owns, Present, NoneClearedSince, Cleared,
      HaveOk, FilledOk, Knows;
    NotBoth(pc, pcu);
    MutexesExclude(pc, pcu);
    if InLoad(pcu) {
      StableLoad(m, t, pc, m', u, pcu);
    } else if InScan(pcu) {
      if pcu.ScanSnap? {
      } else if pcu.ScanLoad? || pcu.ScanHaveWant? || pcu.ScanHave? {
        StableListing(m, t, pc, m', u, pcu);
      } else if pcu.ScanNamesWant? || pcu.ScanEntryWant? || pcu.ScanEpoch? {
        StableHave(m, t, pc, m', u, pcu);
      } else if pcu.ScanFill? {
        StableFill(m, t, pc, m', u, pcu);
      } else {
        StableFilled(m, t, pc, m', u, pcu);
      }
    } else if PostBump(pcu) {
      StableInvalidate(m, t, pc, m', u, pcu);
    }
  }

  // ---------------------------------------------------------------- what a step does to its own thread

  lemma SameKeeps(m: Mem, m': Mem)
    requires MemOk(m) && SameTables(m, m')
    ensures MemOk(m')
  {
    forall n | n in m'.sh.entries ensures EntryOk(m', n, m'.sh.entries[n]) {
      assert EntryOk(m, n, m.sh.entries[n]);
    }
  }

  lemma GetKeeps(m: Mem, t: Tid, pc: Pc, c: Choice)
    requires MemOk(m) && GetStep(m, t, pc, c).Some?
    ensures var a := GetStep(m, t, pc, c).value; MemOk(a.mem) && ThreadOk(a.mem, t, a.pc)
  {
    hide GetStep, MemOk, SameTables, Free, ThreadOk;
    var a := GetStep(m, t, pc, c).value;
    GetSameTables(m, t, pc, c);
    SameKeeps(m, a.mem);
    GetFree(m, t, pc, c);
    FreeOk(a.mem, t, a.pc);
  }

  lemma EmplaceKeeps(m: Mem, n: Name, e: Entry, attempted: set<Name>, loads: map<Name, Tid>)
    requires MemOk(m) && EntryOk(m, n, e)
    ensures MemOk(m.(sh := m.sh.(entries := Emplace(m.sh.entries, e), attempted := attempted, loads := loads)))
  {
    var m' := m.(sh := m.sh.(entries := Emplace(m.sh.entries, e), attempted := attempted, loads := loads));
    forall k | k in m'.sh.entries ensures EntryOk(m', k, m'.sh.entries[k]) {
      assert k in m.sh.entries ==> EntryOk(m, k, m.sh.entries[k]);
    }
  }

  lemma LoadsKeeps(m: Mem, attempted: set<Name>, loads: map<Name, Tid>)
    requires MemOk(m)
    ensures MemOk(m.(sh := m.sh.(attempted := attempted, loads := loads)))
  {
    var m' := m.(sh := m.sh.(attempted := attempted, loads := loads));
    forall k | k in m'.sh.entries ensures EntryOk(m', k, m'.sh.entries[k]) {
      assert EntryOk(m, k, m.sh.entries[k]);
    }
  }

  lemma LoadEnterKeeps(m: Mem, t: Tid, pc: Pc, c: Choice)
    requires MemOk(m) && pc.LoadEnter?
    ensures var a := LoadStep(m, t, pc, c).value; MemOk(a.mem) && ThreadOk(a.mem, t, a.pc)
  {
    hide EntriesOk, ClearsOk, Present;
    LoadsKeeps(m, m.sh.attempted, m.sh.loads[pc.n := t]);
  }

  lemma LoadFetchKeeps(m: Mem, t: Tid, pc: Pc, c: Choice)
    requires MemOk(m) && ThreadOk(m, t, pc) && pc.LoadFetch? && LoadStep(m, t, pc, c).Some?
    ensures var a := LoadStep(m, t, pc, c).value; MemOk(a.mem) && ThreadOk(a.mem, t, a.pc)
  {
    hide EntriesOk, ClearsOk, Present, MemOk;
    SameKeeps(m, LoadStep(m, t, pc, c).value.mem);
  }

  lemma LoadStoreKeeps(m: Mem, t: Tid, pc: Pc, c: Choice)
    requires MemOk(m) && ThreadOk(m, t, pc) && pc.LoadStore?
    ensures var a := LoadStep(m, t, pc, c).value; MemOk(a.mem) && ThreadOk(a.mem, t, a.pc)
  {
    hide EntriesOk, ClearsOk, BumpsOk, Present, MemOk, Emplace, Cleared;
    if pc.clean && pc.got.Some? {
      EmplaceKeeps(m, pc.n, pc.got.value, m.sh.attempted + {pc.n}, m.sh.loads - {pc.n});
    } else {
      LoadsKeeps(m, m.sh.attempted + {pc.n}, m.sh.loads - {pc.n});
      LoadsKeeps(m, m.sh.attempted, m.sh.loads - {pc.n});
    }
  }

  lemma LoadKeeps(m: Mem, t: Tid, pc: Pc, c: Choice)
    requires MemOk(m) && ThreadOk(m, t, pc) && LoadStep(m, t, pc, c).Some?
    ensures var a := LoadStep(m, t, pc, c).value; MemOk(a.mem) && ThreadOk(a.mem, t, a.pc)
  {
    hide MemOk, FetchOk, Since;
    if pc.LoadEnter? {
      LoadEnterKeeps(m, t, pc, c);
    } else if pc.LoadFetch? {
      LoadFetchKeeps(m, t, pc, c);
    } else if pc.LoadStore? {
      LoadStoreKeeps(m, t, pc, c);
    } else if pc.LoadPublish? {
      EpochCoversClears(m, pc.n);
    }
  }

  lemma EpochCoversClears(m: Mem, n: Name)
    requires MemOk(m)
    ensures Cleared(m, n) <= m.sh.epoch
  {
  }

  lemma FillKeeps(m: Mem, listing: map<Name, nat>, have: set<Name>, snap: nat, gen: nat, clean: bool)
    requires MemOk(m) && ListingOk(m, snap, listing) && (clean ==> NoneClearedSince(m, snap))
    ensures MemOk(m.(sh := Fill(m.sh, listing, have, snap, gen, clean), gen := gen + 1))
  {
    hide Cleared;
    var m' := m.(sh := Fill(m.sh, listing, have, snap, gen, clean), gen := gen + 1);
    forall n | n in m'.sh.entries ensures EntryOk(m', n, m'.sh.entries[n]) {
      SameCleared(m, m', n);
      if n in m.sh.entries {
        assert EntryOk(m, n, m.sh.entries[n]);
      } else {
        assert Cleared(m, n) <= snap;
      }
    }
    forall n | n in m'.clearedName ensures m'.clearedName[n] <= m'.sh.epoch {}
  }

  lemma SameCleared(m: Mem, m': Mem, n: Name)
    requires m'.clearedAll == m.clearedAll && m'.clearedName == m.clearedName
    ensures Cleared(m', n) == Cleared(m, n)
  {
  }

  lemma ScanFillKeeps(m: Mem, t: Tid, pc: Pc, c: Choice, pend: Option<Scope>)
    requires MemOk(m) && ThreadOk(m, t, pc) && pc.ScanFill?
    ensures var a := ScanStep(m, t, pc, c, pend).value; MemOk(a.mem) && ThreadOk(a.mem, t, a.pc)
  {
    hide MemOk, ListingOk, NoneClearedSince, Listed;
    FillKeeps(m, pc.listing, pc.have, pc.snap, m.gen, pc.clean);
    ListingBounded(m, pc.snap, pc.listing);
    if pc.snap == m.sh.epoch { FillPresent(m, pc.listing, pc.have, pc.snap, m.gen, pc.pend); }
  }

  /** Pass C leaves every listed name in both containers, but for what was still to be cleared. */
  lemma FillPresent(m: Mem, listing: map<Name, nat>, have: set<Name>, snap: nat, gen: nat, pend: Option<Scope>)
    requires HaveOk(m, snap, pend, have) && snap == m.sh.epoch
    ensures Present(m.(sh := Fill(m.sh, listing, have, snap, gen, true), gen := gen + 1), Spared(listing.Keys, pend))
  {
    var sh := Fill(m.sh, listing, have, snap, gen, true);
    forall n | n in Spared(listing.Keys, pend) ensures n in sh.entries.Keys {
      if n in have { assert n in Spared(have, pend); }
    }
  }

  lemma ScanStartKeeps(m: Mem, t: Tid, pc: Pc, c: Choice, pend: Option<Scope>)
    requires MemOk(m) && ThreadOk(m, t, pc) && ScanStep(m, t, pc, c, pend).Some?
    requires pc.ScanSnap? || pc.ScanLoad?
    ensures var a := ScanStep(m, t, pc, c, pend).value; a.mem == m && ThreadOk(m, t, a.pc)
  {
    hide EntriesOk, ClearsOk, Present;
  }

  lemma ScanHaveKeeps(m: Mem, t: Tid, pc: Pc, c: Choice, pend: Option<Scope>)
    requires MemOk(m) && ThreadOk(m, t, pc) && ScanStep(m, t, pc, c, pend).Some?
    requires pc.ScanHaveWant? || pc.ScanHave? || pc.ScanNamesWant? || pc.ScanEntryWant?
    ensures var a := ScanStep(m, t, pc, c, pend).value; a.mem == m && ThreadOk(m, t, a.pc)
  {
    hide MemOk, ListingOk;
  }

  lemma ScanEpochKeeps(m: Mem, t: Tid, pc: Pc, c: Choice, pend: Option<Scope>)
    requires MemOk(m) && ThreadOk(m, t, pc) && pc.ScanEpoch?
    ensures var a := ScanStep(m, t, pc, c, pend).value; a.mem == m && ThreadOk(m, t, a.pc)
  {
    hide MemOk, ListingOk, Cleared;
    forall n: Name ensures Cleared(m, n) <= m.sh.epoch { EpochCoversClears(m, n); }
  }

  lemma ScanCallbackKeeps(m: Mem, t: Tid, pc: Pc, c: Choice, pend: Option<Scope>)
    requires MemOk(m) && ThreadOk(m, t, pc) && (pc.ScanCallback? || pc.ScanHand?) && ScanStep(m, t, pc, c, pend).Some?
    ensures var a := ScanStep(m, t, pc, c, pend).value; MemOk(a.mem) && ThreadOk(a.mem, t, a.pc)
  {
    hide MemOk, AnchorsOf;
    SameKeeps(m, ScanStep(m, t, pc, c, pend).value.mem);
  }

  lemma ScanPublishKeeps(m: Mem, t: Tid, pc: Pc, c: Choice, pend: Option<Scope>)
    requires MemOk(m) && ThreadOk(m, t, pc)
    requires pc.ScanPublishWant? || pc.ScanCompare? || pc.ScanStoreFully?
    ensures var a := ScanStep(m, t, pc, c, pend).value; MemOk(a.mem) && ThreadOk(a.mem, t, a.pc)
  {
    hide MemOk;
    SameKeeps(m, ScanStep(m, t, pc, c, pend).value.mem);
  }

  lemma ScanStoreKeeps(m: Mem, t: Tid, pc: Pc, c: Choice, pend: Option<Scope>)
    requires MemOk(m) && ThreadOk(m, t, pc) && pc.ScanStoreNames?
    ensures var a := ScanStep(m, t, pc, c, pend).value; MemOk(a.mem) && ThreadOk(a.mem, t, a.pc)
  {
    hide Cleared;
    var m' := ScanStep(m, t, pc, c, pend).value.mem;
    forall n | n in m'.sh.entries ensures EntryOk(m', n, m'.sh.entries[n]) {
      SameCleared(m, m', n);
      assert EntryOk(m, n, m.sh.entries[n]);
    }
  }

  lemma ScanKeeps(m: Mem, t: Tid, pc: Pc, c: Choice, pend: Option<Scope>)
    requires MemOk(m) && ThreadOk(m, t, pc) && ScanStep(m, t, pc, c, pend).Some? && InScan(pc)
    ensures var a := ScanStep(m, t, pc, c, pend).value; MemOk(a.mem) && ThreadOk(a.mem, t, a.pc)
  {
    hide MemOk, ThreadOk, ScanStep;
    if pc.ScanSnap? || pc.ScanLoad? {
      ScanStartKeeps(m, t, pc, c, pend);
    } else if pc.ScanHaveWant? || pc.ScanHave? || pc.ScanNamesWant? || pc.ScanEntryWant? {
      ScanHaveKeeps(m, t, pc, c, pend);
    } else if pc.ScanEpoch? {
      ScanEpochKeeps(m, t, pc, c, pend);
    } else if pc.ScanFill? {
      ScanFillKeeps(m, t, pc, c, pend);
    } else if pc.ScanCallback? || pc.ScanHand? {
      ScanCallbackKeeps(m, t, pc, c, pend);
    } else if pc.ScanStoreNames? {
      ScanStoreKeeps(m, t, pc, c, pend);
    } else {
      ScanPublishKeeps(m, t, pc, c, pend);
    }
  }

  lemma BumpKeeps(m: Mem, t: Tid, pc: Pc, c: Choice)
    requires MemOk(m) && pc.InvBump?
    ensures var a := InvalidateStep(m, t, pc, c).value; MemOk(a.mem) && ThreadOk(a.mem, t, a.pc)
  {
    hide Cleared;
    var m' := InvalidateStep(m, t, pc, c).value.mem;
    forall n | n in m'.sh.entries ensures EntryOk(m', n, m'.sh.entries[n]) {
      SameCleared(m, m', n);
      assert EntryOk(m, n, m.sh.entries[n]);
    }
  }

  lemma ClearKeeps(m: Mem, t: Tid, pc: Pc, c: Choice)
    requires MemOk(m) && ThreadOk(m, t, pc) && pc.InvEntryClear?
    ensures var a := InvalidateStep(m, t, pc, c).value; MemOk(a.mem) && ThreadOk(a.mem, t, a.pc)
  {
    var m' := InvalidateStep(m, t, pc, c).value.mem;
    hide EntryOk, Cleared;
    forall n | n in m'.sh.entries ensures EntryOk(m', n, m'.sh.entries[n]) {
      assert EntryOk(m, n, m.sh.entries[n]);
      ClearSpares(m, t, pc, c, n);
    }
  }

  /** An entry that survives a clear is not one the clear covers. */
  lemma ClearSpares(m: Mem, t: Tid, pc: Pc, c: Choice, n: Name)
    requires pc.InvEntryClear? && n in InvalidateStep(m, t, pc, c).value.mem.sh.entries
    requires n in m.sh.entries && EntryOk(m, n, m.sh.entries[n])
    ensures var m' := InvalidateStep(m, t, pc, c).value.mem; EntryOk(m', n, m'.sh.entries[n])
  {
  }

  lemma ClearNamesKeeps(m: Mem, t: Tid, pc: Pc, c: Choice)
    requires MemOk(m) && ThreadOk(m, t, pc) && pc.InvNamesClear?
    ensures var a := InvalidateStep(m, t, pc, c).value; MemOk(a.mem) && ThreadOk(a.mem, t, a.pc)
  {
    hide Cleared;
    var m' := InvalidateStep(m, t, pc, c).value.mem;
    forall n | n in m'.sh.entries ensures EntryOk(m', n, m'.sh.entries[n]) {
      SameCleared(m, m', n);
      assert EntryOk(m, n, m.sh.entries[n]);
    }
  }

  lemma LowerKeeps(m: Mem, t: Tid, pc: Pc, c: Choice)
    requires MemOk(m) && ThreadOk(m, t, pc)
    requires pc.InvLowerFully? || pc.InvLowerNames? || pc.InvWant? || pc.InvEntryWant? || pc.InvNamesWant?
    ensures var a := InvalidateStep(m, t, pc, c).value; MemOk(a.mem) && ThreadOk(a.mem, t, a.pc)
  {
    hide MemOk;
    SameKeeps(m, m.(sh := InvalidateStep(m, t, pc, c).value.mem.sh));
    if pc.InvLowerFully? { PublishedKeeps(m.(sh := m.sh.(fully := false))); }
  }

  lemma PublishedKeeps(m: Mem)
    requires MemOk(m)
    ensures MemOk(m.(published := {}))
  {
    hide Cleared;
    var m' := m.(published := {});
    forall n | n in m'.sh.entries ensures EntryOk(m', n, m'.sh.entries[n]) {
      SameCleared(m, m', n);
      assert EntryOk(m, n, m.sh.entries[n]);
    }
  }

  lemma InvalidateKeeps(m: Mem, t: Tid, pc: Pc, c: Choice)
    requires MemOk(m) && ThreadOk(m, t, pc) && InvalidateStep(m, t, pc, c).Some?
    ensures var a := InvalidateStep(m, t, pc, c).value; MemOk(a.mem) && ThreadOk(a.mem, t, a.pc)
  {
    Invalidating(m, t, pc, c);
    hide MemOk, ThreadOk, InvalidateStep;
    if pc.InvBump? {
      BumpKeeps(m, t, pc, c);
    } else if pc.InvEntryClear? {
      ClearKeeps(m, t, pc, c);
    } else if pc.InvNamesClear? {
      ClearNamesKeeps(m, t, pc, c);
    } else {
      LowerKeeps(m, t, pc, c);
    }
  }

  lemma Invalidating(m: Mem, t: Tid, pc: Pc, c: Choice)
    requires InvalidateStep(m, t, pc, c).Some?
    ensures pc.InvWant? || pc.InvBump? || PostBump(pc)
  {
  }

  lemma StepKeeps(m: Mem, t: Tid, pc: Pc, c: Choice, pend: Option<Scope>)
    requires MemOk(m) && ThreadOk(m, t, pc) && Step(m, t, pc, c, pend).Some?
    ensures var a := Step(m, t, pc, c, pend).value; MemOk(a.mem) && ThreadOk(a.mem, t, a.pc)
  {
    hide GetStep, LoadStep, ScanStep, InvalidateStep, MemOk;
    var a := Step(m, t, pc, c, pend).value;
    if pc.Idle? {
      SameKeeps(m, a.mem);
    } else if InGet(pc) {
      GetKeeps(m, t, pc, c);
    } else if InLoad(pc) {
      LoadKeeps(m, t, pc, c);
    } else if InScan(pc) {
      ScanKeeps(m, t, pc, c, pend);
    } else {
      InvalidateKeeps(m, t, pc, c);
    }
  }
}
