/** The table set's fields and the critical sections that change them, section by section the steps of the machine:
    from a memory whose fields are these the machine's steps lead to one whose fields are what the section leaves.
    `loads` records who took each slot, where the code keeps the names only. */
module TableSetFields {
  import opened Staging
  import opened TableSet

  datatype Entered = Wait | Hit | Negative | Slot(snap: nat)

  /** Where the machine's thread is after the section that enters a load. */
  function Entering(r: Entered, n: Name, clock: nat): Pc {
    match r
    case Wait => LoadWaiting(n)
    case Hit => RelookWant(n)
    case Negative => Idle
    case Slot(snap) => LoadFetch(n, snap, clock)
  }

  /** Steps left of a section that runs from `pc` to its end. */
  function Left(pc: Pc): nat {
    match pc
    case InvBump(_) => 7
    case InvLowerFully(_, _) => 6
    case InvLowerNames(_, _) => 5
    case InvEntryWant(_, _) => 4
    case InvEntryClear(_, _) => 3
    case InvNamesWant(_, _) => 2
    case InvNamesClear(_, _) => 1
    case ScanCompare(_, _, _, _) => 3
    case ScanStoreNames(_, _, _, _) => 2
    case ScanStoreFully(_, _, _, _) => 1
    case _ => 0
  }

  lemma LeftShrinks(m: Mem, t: Tid, pc: Pc)
    requires Left(pc) > 0
    ensures Step(m, t, pc, Go, None).Some? && Left(Step(m, t, pc, Go, None).value.pc) < Left(pc)
  {
    hide ClearEntries, ClearNames, Spared;
  }

  /** The memory when thread `t` has taken those steps and nobody else has moved. */
  ghost function Alone(m: Mem, t: Tid, pc: Pc): Mem
    decreases Left(pc)
  {
    if Left(pc) == 0 then m
    else
      LeftShrinks(m, t, pc);
      Alone(Step(m, t, pc, Go, None).value.mem, t, Step(m, t, pc, Go, None).value.pc)
  }

  /** From one program counter of a section to the next. */
  ghost predicate Moves(m: Mem, t: Tid, pc: Pc, m': Mem, pc': Pc) {
    Left(pc) > 0 && Step(m, t, pc, Go, None) == Some(Act(pc', m'))
  }

  lemma AloneStep(m: Mem, t: Tid, pc: Pc, m': Mem, pc': Pc)
    requires Moves(m, t, pc, m', pc')
    ensures Alone(m, t, pc) == Alone(m', t, pc')
  {
    hide Step, Left;
  }

  lemma Bumps(m: Mem, t: Tid, scope: Scope)
    ensures Moves(m, t, InvBump(scope), m.(sh := m.sh.(epoch := m.sh.epoch + 1), bumpClock := m.bumpClock + [m.clock]),
                  InvLowerFully(scope, m.sh.epoch + 1))
  {
  }

  lemma LowersFully(m: Mem, t: Tid, scope: Scope, e: nat)
    ensures Moves(m, t, InvLowerFully(scope, e), m.(sh := m.sh.(fully := false), published := {}), InvLowerNames(scope, e))
  {
  }

  lemma LowersNames(m: Mem, t: Tid, scope: Scope, e: nat)
    ensures Moves(m, t, InvLowerNames(scope, e), m.(sh := m.sh.(namesLoaded := false)), InvEntryWant(scope, e))
  {
  }

  function Emptied(m: Mem, scope: Scope, e: nat): Mem {
    m.(sh := ClearEntries(m.sh, scope),
       clearedAll := if scope.All? then e else m.clearedAll,
       clearedName := if scope.One? then m.clearedName[scope.name := e] else m.clearedName)
  }

  lemma TakesEntry(m: Mem, t: Tid, scope: Scope, e: nat)
    ensures Moves(m, t, InvEntryWant(scope, e), m, InvEntryClear(scope, e))
  {
  }

  lemma ClearsEntry(m: Mem, t: Tid, scope: Scope, e: nat)
    ensures Moves(m, t, InvEntryClear(scope, e), Emptied(m, scope, e), InvNamesWant(scope, e))
  {
    hide ClearEntries;
  }

  lemma TakesNames(m: Mem, t: Tid, scope: Scope, e: nat)
    ensures Moves(m, t, InvNamesWant(scope, e), m, InvNamesClear(scope, e))
  {
  }

  lemma ClearsNames(m: Mem, t: Tid, scope: Scope, e: nat)
    ensures Moves(m, t, InvNamesClear(scope, e), m.(sh := ClearNames(m.sh, scope)), Idle)
  {
    hide ClearNames;
  }

  /** What an invalidation does to the fields when nobody else moves. */
  lemma InvalidatesAlone(m: Mem, t: Tid, scope: Scope)
    ensures Alone(m, t, InvBump(scope)).sh
            == ClearNames(ClearEntries(m.sh.(epoch := m.sh.epoch + 1, fully := false, namesLoaded := false), scope), scope)
  {
    hide *;
    var e := m.sh.epoch + 1;
    var m1 := m.(sh := m.sh.(epoch := e), bumpClock := m.bumpClock + [m.clock]);
    Bumps(m, t, scope);
    AloneStep(m, t, InvBump(scope), m1, InvLowerFully(scope, e));
    var m2 := m1.(sh := m1.sh.(fully := false), published := {});
    LowersFully(m1, t, scope, e);
    AloneStep(m1, t, InvLowerFully(scope, e), m2, InvLowerNames(scope, e));
    var m3 := m2.(sh := m2.sh.(namesLoaded := false));
    LowersNames(m2, t, scope, e);
    AloneStep(m2, t, InvLowerNames(scope, e), m3, InvEntryWant(scope, e));
    ClearsAlone(m3, t, scope, e);
  }

  lemma EmptiedFields(m: Mem, scope: Scope, e: nat)
    ensures Emptied(m, scope, e).sh == ClearEntries(m.sh, scope)
  {
    hide ClearEntries;
  }

  lemma ClearsAlone(m: Mem, t: Tid, scope: Scope, e: nat)
    ensures Alone(m, t, InvEntryWant(scope, e)).sh == ClearNames(ClearEntries(m.sh, scope), scope)
  {
    hide *;
    var m1 := Emptied(m, scope, e);
    var m2 := m1.(sh := ClearNames(m1.sh, scope));
    TakesEntry(m, t, scope, e);
    ClearsEntry(m, t, scope, e);
    TakesNames(m1, t, scope, e);
    ClearsNames(m1, t, scope, e);
    AloneStep(m, t, InvEntryWant(scope, e), m, InvEntryClear(scope, e));
    AloneStep(m, t, InvEntryClear(scope, e), m1, InvNamesWant(scope, e));
    AloneStep(m1, t, InvNamesWant(scope, e), m1, InvNamesClear(scope, e));
    AloneStep(m1, t, InvNamesClear(scope, e), m2, Idle);
    AloneDone(m2, t);
    EmptiedFields(m, scope, e);
  }

  lemma AloneDone(m: Mem, t: Tid)
    ensures Alone(m, t, Idle) == m
  {
  }

  lemma Compares(m: Mem, t: Tid, snap: nat, p: Option<Scope>, listing: map<Name, nat>, done: set<Entry>)
    ensures Moves(m, t, ScanCompare(snap, p, listing, done), m,
                  if m.sh.epoch == snap then ScanStoreNames(snap, p, listing, done) else Idle)
  {
  }

  lemma StoresNames(m: Mem, t: Tid, snap: nat, p: Option<Scope>, listing: map<Name, nat>, done: set<Entry>)
    ensures Moves(m, t, ScanStoreNames(snap, p, listing, done),
                  m.(sh := m.sh.(namesLoaded := true), published := m.published + Spared(listing.Keys, p)),
                  ScanStoreFully(snap, p, listing, done))
  {
    hide Spared;
  }

  lemma StoresFully(m: Mem, t: Tid, snap: nat, p: Option<Scope>, listing: map<Name, nat>, done: set<Entry>)
    ensures Moves(m, t, ScanStoreFully(snap, p, listing, done), m.(sh := m.sh.(fully := true)), Idle)
  {
  }

  /** What the end of a scan does to the fields when nobody else moves. */
  lemma PublishesAlone(m: Mem, t: Tid, snap: nat, p: Option<Scope>, listing: map<Name, nat>, done: set<Entry>)
    ensures Alone(m, t, ScanCompare(snap, p, listing, done)).sh
            == if m.sh.epoch == snap then m.sh.(namesLoaded := true, fully := true) else m.sh
  {
    hide *;
    Compares(m, t, snap, p, listing, done);
    if m.sh.epoch == snap {
      var m1 := m.(sh := m.sh.(namesLoaded := true), published := m.published + Spared(listing.Keys, p));
      var m2 := m1.(sh := m1.sh.(fully := true));
      StoresNames(m, t, snap, p, listing, done);
      StoresFully(m1, t, snap, p, listing, done);
      AloneStep(m, t, ScanCompare(snap, p, listing, done), m, ScanStoreNames(snap, p, listing, done));
      AloneStep(m, t, ScanStoreNames(snap, p, listing, done), m1, ScanStoreFully(snap, p, listing, done));
      AloneStep(m1, t, ScanStoreFully(snap, p, listing, done), m2, Idle);
      AloneDone(m2, t);
    } else {
      AloneStep(m, t, ScanCompare(snap, p, listing, done), m, Idle);
      AloneDone(m, t);
    }
  }

  lemma FilledOne(listing: map<Name, nat>, have: set<Name>, snap: nat, gen: nat, entries: map<Name, Entry>, done: set<Name>, n: Name)
    requires done <= listing.Keys - have && n in listing.Keys - have
    ensures var before := Built(listing, listing.Keys - done, snap, gen) + entries;
            Emplace(before, Entry(n, gen, snap, listing[n])) == Built(listing, listing.Keys - (done + {n}), snap, gen) + entries
  {
  }

  lemma BuiltSame(listing: map<Name, nat>, have: set<Name>, snap: nat, gen: nat)
    ensures Built(listing, listing.Keys - (listing.Keys - have), snap, gen) == Built(listing, have, snap, gen)
  {
  }

  lemma FinishSteps(m: Mem, t: Tid, n: Name, snap: nat, got: Option<Entry>, failed: bool)
    ensures LoadStep(m, t, LoadPublish(n, snap, got, failed), Go) == Some(Act(LoadStore(n, snap, got, failed, m.sh.epoch == snap), m))
    ensures LoadStep(m, t, LoadStore(n, snap, got, failed, m.sh.epoch == snap), Go)
            == Some(Act(if got.Some? then Anchor(got.value) else Idle, m.(sh := StoreLoaded(m.sh, n, got, failed, m.sh.epoch == snap))))
  {
    hide StoreLoaded;
  }

  class Tables {
    var entries: map<Name, Entry>
    var attempted: set<Name>
    var known: set<Name>
    var loads: map<Name, Tid>
    var epoch: nat
    var namesLoaded: bool
    var fully: bool

    ghost function Contents(): Shared
      reads this
    {
      Shared(entries, attempted, known, loads, epoch, namesLoaded, fully)
    }

    constructor ()
      ensures Contents() == Init.mem.sh
    {
      entries, attempted, known, loads, epoch, namesLoaded, fully := map[], {}, {}, map[], 0, false, false;
    }

    /** Under `entry_mutex_`: wait, answer, or take the load slot. What the machine does at `LoadEnter`. */
    method EnterLoad(n: Name, t: Tid, ghost m: Mem) returns (r: Entered)
      requires m.sh == Contents()
      modifies this`loads
      ensures LoadStep(m, t, LoadEnter(n), Go) == Some(Act(Entering(r, n, m.clock), m.(sh := Contents())))
    {
      if n in loads { return Wait; }
      if n in entries { return Hit; }
      if n in attempted { return Negative; }
      loads := loads[n := t];
      r := Slot(epoch);
    }

    /** Under `entry_mutex_`: publish what was fetched unless the epoch moved, and give the slot back. What the machine
        does at `LoadPublish` and `LoadStore`. */
    method FinishLoad(n: Name, snap: nat, got: Option<Entry>, failed: bool, ghost t: Tid, ghost m: Mem)
      requires m.sh == Contents()
      modifies this`entries, this`attempted, this`loads
      ensures var compared := LoadStep(m, t, LoadPublish(n, snap, got, failed), Go);
              compared.Some? && compared.value.mem == m
              && LoadStep(m, t, compared.value.pc, Go)
                 == Some(Act(if got.Some? then Anchor(got.value) else Idle, m.(sh := Contents())))
    {
      var clean := epoch == snap;
      FinishSteps(m, t, n, snap, got, failed);
      hide LoadStep;
      if clean && got.Some? {
        if got.value.name !in entries { entries := entries[got.value.name := got.value]; }
        attempted := attempted + {n};
      } else if clean && !failed && got.None? {
        attempted := attempted + {n};
      }
      loads := loads - {n};
    }

    /** Pass C's first loop: build and emplace the entries of the listed names that had none. */
    method EmplaceMissing(order: seq<Name>, listing: map<Name, nat>, have: set<Name>, snap: nat, gen: nat, clean: bool)
      returns (snapshot: seq<Entry>)
      requires forall n :: n in order <==> n in listing
      modifies this`entries
      ensures entries == if clean then Built(listing, have, snap, gen) + old(entries) else old(entries)
      ensures forall e :: e in snapshot <==>
                exists n :: n in listing && n !in have && e == if clean then entries[n] else Built(listing, have, snap, gen)[n]
    {
      snapshot := [];
      ghost var made: set<Name> := {};
      assert Built(listing, listing.Keys, snap, gen) == map[];
      for i := 0 to |order|
        invariant made == set n | n in order[..i] && n !in have
        invariant entries == if clean then Built(listing, listing.Keys - made, snap, gen) + old(entries) else old(entries)
        invariant forall e :: e in snapshot <==> exists n :: n in made && e == if clean then entries[n] else Entry(n, gen, snap, listing[n])
      {
        var n := order[i];
        assert order[..i + 1] == order[..i] + [n];
        if n !in have {
          var entry := Entry(n, gen, snap, listing[n]);
          if clean {
            FilledOne(listing, have, snap, gen, old(entries), made, n);
            if n !in entries { entries := entries[n := entry]; }
            snapshot := snapshot + [entries[n]];
          } else {
            snapshot := snapshot + [entry];
          }
          made := made + {n};
        }
      }
      assert order[..|order|] == order;
      assert made == listing.Keys - have;
      BuiltSame(listing, have, snap, gen);
    }

    /** Pass C's second loop: the listed names that had an entry and still have one. */
    method PickExisting(order: seq<Name>, have: set<Name>) returns (snapshot: seq<Entry>)
      ensures forall e :: e in snapshot <==> exists n :: n in order && n in have && n in entries && e == entries[n]
    {
      snapshot := [];
      for i := 0 to |order|
        invariant forall e :: e in snapshot <==> exists n :: n in order[..i] && n in have && n in entries && e == entries[n]
      {
        var n := order[i];
        assert order[..i + 1] == order[..i] + [n];
        if n in have && n in entries { snapshot := snapshot + [entries[n]]; }
      }
      assert order[..|order|] == order;
    }

    /** Pass C's third loop. */
    method RecordNames(order: seq<Name>)
      modifies this`known
      ensures known == old(known) + set n | n in order
    {
      for i := 0 to |order|
        invariant known == old(known) + set n | n in order[..i]
      {
        assert order[..i + 1] == order[..i] + [order[i]];
        known := known + {order[i]};
      }
      assert order[..|order|] == order;
    }

    /** Under `names_mutex_` and `entry_mutex_`: pass C of a scan over the listed names in `order`. */
    method FillPass(order: seq<Name>, listing: map<Name, nat>, have: set<Name>, snap: nat, gen: nat, clean: bool)
      returns (snapshot: seq<Entry>)
      requires forall n :: n in order <==> n in listing
      modifies this
      ensures Contents() == Fill(old(Contents()), listing, have, snap, gen, clean)
      ensures forall e :: e in snapshot <==> e in Listed(old(Contents()), listing, have, snap, gen, clean)
    {
      hide Built;
      snapshot := EmplaceMissing(order, listing, have, snap, gen, clean);
      var kept := PickExisting(order, have);
      snapshot := snapshot + kept;
      if clean {
        RecordNames(order);
        assert (set n | n in order) == listing.Keys;
      }
    }

    /** Under `load_mutex_`: raise the flags unless the epoch moved since the scan's snapshot. What the machine does from
        `ScanCompare` on. */
    method PublishFlags(snap: nat, ghost t: Tid, ghost m: Mem, ghost scan: Pc)
      requires m.sh == Contents() && scan.ScanCompare? && scan.snap == snap
      modifies this`namesLoaded, this`fully
      ensures Contents() == Alone(m, t, scan).sh
    {
      PublishesAlone(m, t, snap, scan.pend, scan.listing, scan.done);
      if epoch == snap {
        namesLoaded := true;
        fully := true;
      }
    }

    /** Under `load_mutex_`: an invalidation, with nothing else running. What the machine does from `InvBump` on. */
    method Invalidate(scope: Scope, ghost t: Tid, ghost m: Mem)
      requires m.sh == Contents()
      modifies this
      ensures Contents() == Alone(m, t, InvBump(scope)).sh
    {
      InvalidatesAlone(m, t, scope);
      epoch, fully, namesLoaded := epoch + 1, false, false;
      match scope {
        case All =>
          entries, attempted := map[], {};
          known := {};
        case One(n) =>
          entries, attempted := entries - {n}, attempted - {n};
          known := known - {n};
      }
    }
  }

  /** One context's anchors for one catalog. */
  class BindAnchors {
    var tableAnchors: seq<Entry>

    /** The entries these anchors own: what the machine records of a context. */
    ghost function Kept(): set<Entry>
      reads this
    {
      set e | e in tableAnchors
    }

    constructor ()
      ensures Kept() == {}
    {
      tableAnchors := [];
    }

    /** One more shared pointer at the end; a null one is not kept. What the machine does at `Anchor`. */
    method AnchorTable(entry: Option<Entry>, ghost t: Tid, ghost m: Mem)
      requires Kept() == AnchorsOf(m, t)
      modifies this
      ensures entry.None? ==> Kept() == AnchorsOf(m, t)
      ensures entry.Some? ==>
                var anchored := GetStep(m, t, Anchor(entry.value), Go);
                anchored.Some? && anchored.value.pc == Return(entry.value) && Kept() == AnchorsOf(anchored.value.mem, t)
      ensures old(tableAnchors) <= tableAnchors
    {
      if entry.None? { return; }
      tableAnchors := tableAnchors + [entry.value];
    }

    /** Every shared pointer is dropped. What the machine does at `QueryEnd`. */
    method QueryEnd(ghost t: Tid, ghost m: Mem)
      modifies this
      ensures Begin(m, t, Choice.QueryEnd).Some? && Kept() == AnchorsOf(Begin(m, t, Choice.QueryEnd).value.mem, t)
    {
      tableAnchors := [];
    }
  }
}
