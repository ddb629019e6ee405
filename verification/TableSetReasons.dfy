/** Why `GetEntry` asks the server, and why it answers that there is no such table, over every run
    (src/catalog/mssql_table_set.cpp:46-122, 278-370). */
module TableSetReasons {
  import opened Staging
  import opened TableSet
  import opened TableSetRuns
  import opened TableSetTheorems
  import opened TableSetAnswers

  // ---------------------------------------------------------------- a fetch comes after every check

  /** The checks that must fail to answer before the server is asked, in their order: neither cached nor known not to
      exist; the schema not known to be fully loaded; not filtered out; not missing from loaded names; and, once
      nobody else is loading the name, still neither cached nor known not to exist. */
  ghost predicate CheckAt(s: State, c: Choice, n: Name, check: nat) {
    var sh := s.mem.sh;
    if check == 1 then n !in sh.entries && n !in sh.attempted
    else if check == 2 then !sh.fully
    else if check == 3 then c == Filtered(false)
    else if check == 4 then !sh.namesLoaded || n in sh.known
    else n !in sh.loads && n !in sh.entries && n !in sh.attempted
  }

  /** Between `i` and `j` thread `t` made the first `checks` checks for `n`, one after the other. */
  ghost predicate Checks(states: seq<State>, events: seq<Event>, i: nat, j: nat, t: Tid, n: Name, checks: nat)
    decreases checks
  {
    checks == 0
    || exists k: nat :: i <= k < j && CheckedAt(states, events, k, t, n, checks) && Checks(states, events, i, k, t, n, checks - 1)
  }

  ghost predicate CheckedAt(states: seq<State>, events: seq<Event>, k: nat, t: Tid, n: Name, check: nat) {
    Steps(events, k, t) && k < |states| && CheckAt(states[k], events[k].c, n, check)
  }

  /** How many checks a thread has behind it. */
  function Behind(pc: Pc): nat {
    match pc
    case GetFully(_) => 1
    case GetFilter(_) => 2
    case GetFlag(_) => 3
    case NamesWant(_) => 3
    case NamesLook(_) => 3
    case LoadWant(_) => 4
    case LoadEnter(_) => 4
    case LoadWaiting(_) => 4
    case LoadFetch(_, _, _) => 5
    case _ => 0
  }

  lemma BehindGet(s: State, t: Tid, pc: Pc, c: Choice)
    requires GetStep(s.mem, t, pc, c).Some? && Asked(pc).Some?
    ensures var pc' := GetStep(s.mem, t, pc, c).value.pc;
            Behind(pc') == 0 || Behind(pc') == Behind(pc)
            || (Behind(pc') == Behind(pc) + 1 && CheckAt(s, c, Asked(pc).value, Behind(pc')))
  {
    hide Keep;
  }

  lemma BehindLoad(s: State, t: Tid, pc: Pc, c: Choice)
    requires LoadStep(s.mem, t, pc, c).Some? && Asked(pc).Some?
    ensures var pc' := LoadStep(s.mem, t, pc, c).value.pc;
            Behind(pc') == 0 || Behind(pc') == Behind(pc)
            || (Behind(pc') == Behind(pc) + 1 && CheckAt(s, c, Asked(pc).value, Behind(pc')))
  {
    hide StoreLoaded;
  }

  lemma BehindStep(s: State, t: Tid, pc: Pc, c: Choice, pend: Option<Scope>)
    requires Step(s.mem, t, pc, c, pend).Some? && Asked(pc).Some?
    ensures var pc' := Step(s.mem, t, pc, c, pend).value.pc;
            Behind(pc') == 0 || Behind(pc') == Behind(pc)
            || (Behind(pc') == Behind(pc) + 1 && CheckAt(s, c, Asked(pc).value, Behind(pc')))
  {
    hide GetStep, LoadStep, ScanStep, InvalidateStep, Behind, CheckAt;
    AskedIsGet(pc);
    if InGet(pc) { BehindGet(s, t, pc, c); } else { BehindLoad(s, t, pc, c); }
  }

  lemma ChecksLonger(states: seq<State>, events: seq<Event>, i: nat, j: nat, t: Tid, n: Name, checks: nat)
    requires Checks(states, events, i, j, t, n, checks)
    ensures Checks(states, events, i, j + 1, t, n, checks)
  {
    hide CheckedAt;
  }

  lemma OneMore(states: seq<State>, events: seq<Event>, i: nat, j: nat, t: Tid, n: Name, checks: nat)
    requires i <= j && Checks(states, events, i, j, t, n, checks) && CheckedAt(states, events, j, t, n, checks + 1)
    ensures Checks(states, events, i, j + 1, t, n, checks + 1)
  {
    hide CheckedAt;
  }

  lemma {:induction false} ChecksBehind(states: seq<State>, events: seq<Event>, i: nat, j: nat, t: Tid, n: Name)
    requires Run(states, events) && i <= j < |states| && PcOf(states[i], t) == GetWant(n)
    requires forall k :: i < k <= j ==> !PcOf(states[k], t).Idle?
    ensures Checks(states, events, i, j, t, n, Behind(PcOf(states[j], t)))
  {
    hide Apply, PcOf, PendingOf, Step, Asked, Behind, HandsOut, Checks, CheckAt;
    if i < j {
      var p := j - 1;
      ChecksBehind(states, events, i, p, t, n);
      AnswersTheName(states, events, i, p, t, n);
      var before, after := Behind(PcOf(states[p], t)), Behind(PcOf(states[j], t));
      ChecksLonger(states, events, i, p, t, n, before);
      OneStep(states, events, p, t);
      if Steps(events, p, t) {
        BehindStep(states[p], t, PcOf(states[p], t), events[p].c, PendingOf(states[p]));
        if after == before + 1 && after != 0 && CheckAt(states[p], events[p].c, n, after) {
          OneMore(states, events, i, p, t, n, before);
        } else if after == 0 {
          NoChecks(states, events, i, j, t, n);
        }
      }
    } else {
      NothingBehind(n);
      NoChecks(states, events, i, j, t, n);
    }
  }

  lemma NoChecks(states: seq<State>, events: seq<Event>, i: nat, j: nat, t: Tid, n: Name)
    ensures Checks(states, events, i, j, t, n, 0)
  {
  }

  lemma NothingBehind(n: Name)
    ensures Behind(GetWant(n)) == 0
  {
  }

  /** The server is asked for a name only after all five checks, made in their order since the call. */
  lemma FetchIsNeeded(states: seq<State>, events: seq<Event>, i: nat, j: nat, t: Tid, n: Name)
    requires Run(states, events) && i <= j < |states| && PcOf(states[i], t) == GetWant(n)
    requires forall k :: i < k <= j ==> !PcOf(states[k], t).Idle?
    requires PcOf(states[j], t).LoadFetch?
    ensures Checks(states, events, i, j, t, n, 5)
  {
    hide Run, PcOf, Checks;
    ChecksBehind(states, events, i, j, t, n);
  }

  // ---------------------------------------------------------------- an empty answer has a reason

  /** A moment of the call that says there is no such table: a name not cached that is known not to exist, a fully
      loaded schema, a filter that leaves the name out, loaded names without it, or a fetch that found nothing. */
  ghost predicate SaysNo(s: State, c: Choice, n: Name) {
    var sh := s.mem.sh;
    (n !in sh.entries && n in sh.attempted) || sh.fully || c == Filtered(true) || (sh.namesLoaded && n !in sh.known)
    || (c.Answer? && (!c.found || c.failed))
  }

  /** Between `i` and `j` there was such a moment. */
  ghost predicate Refused(states: seq<State>, events: seq<Event>, i: nat, j: nat, t: Tid, n: Name) {
    exists k :: i <= k < j && Steps(events, k, t) && k < |states| && SaysNo(states[k], events[k].c, n)
  }

  /** Between `i` and `j` the thread met the name in the cache. */
  ghost predicate MetCached(states: seq<State>, events: seq<Event>, i: nat, j: nat, t: Tid, n: Name) {
    exists k :: i <= k < j && Steps(events, k, t) && k < |states| && n in states[k].mem.sh.entries
  }

  /** A thread on its way to an empty answer. */
  predicate GivesUp(pc: Pc) {
    pc.NegWant? || pc.NegStore? || pc.NamesNegWant? || pc.NamesNegStore?
    || ((pc.LoadPublishWant? || pc.LoadPublish? || pc.LoadStore?) && pc.got.None?)
  }

  predicate LooksAgain(pc: Pc) { pc.RelookWant? || pc.Relook? }

  /** A step of a call about `n`: it gives up, or ends, for a reason seen now or before, and looks again after it met
      the name. */
  ghost predicate Reasoned(s: State, pc: Pc, c: Choice, n: Name, pc': Pc) {
    && (GivesUp(pc') ==> GivesUp(pc) || SaysNo(s, c, n))
    && (LooksAgain(pc') ==> LooksAgain(pc) || n in s.mem.sh.entries)
    && (pc'.Idle? ==> GivesUp(pc) || SaysNo(s, c, n) || pc.Return? || (LooksAgain(pc) && n !in s.mem.sh.entries))
  }

  lemma ReasonedGet(s: State, t: Tid, pc: Pc, c: Choice)
    requires GetStep(s.mem, t, pc, c).Some? && Asked(pc).Some?
    ensures Reasoned(s, pc, c, Asked(pc).value, GetStep(s.mem, t, pc, c).value.pc)
  {
    hide Keep;
  }

  lemma ReasonedLoad(s: State, t: Tid, pc: Pc, c: Choice)
    requires LoadStep(s.mem, t, pc, c).Some? && Asked(pc).Some?
    ensures Reasoned(s, pc, c, Asked(pc).value, LoadStep(s.mem, t, pc, c).value.pc)
  {
    hide StoreLoaded;
  }

  lemma ReasonedStep(s: State, t: Tid, pc: Pc, c: Choice, pend: Option<Scope>)
    requires Step(s.mem, t, pc, c, pend).Some? && Asked(pc).Some?
    ensures Reasoned(s, pc, c, Asked(pc).value, Step(s.mem, t, pc, c, pend).value.pc)
  {
    hide GetStep, LoadStep, ScanStep, InvalidateStep, Reasoned;
    AskedIsGet(pc);
    if InGet(pc) { ReasonedGet(s, t, pc, c); } else { ReasonedLoad(s, t, pc, c); }
  }

  ghost predicate SoFar(states: seq<State>, events: seq<Event>, i: nat, j: nat, t: Tid, n: Name) {
    i <= j < |states|
    && (GivesUp(PcOf(states[j], t)) ==> Refused(states, events, i, j, t, n))
    && (LooksAgain(PcOf(states[j], t)) ==> MetCached(states, events, i, j, t, n))
  }

  lemma {:induction false} ReasonsSoFar(states: seq<State>, events: seq<Event>, i: nat, j: nat, t: Tid, n: Name)
    requires Run(states, events) && i <= j < |states| && PcOf(states[i], t) == GetWant(n)
    requires forall k :: i < k <= j ==> !PcOf(states[k], t).Idle?
    ensures SoFar(states, events, i, j, t, n)
  {
    hide Apply, PcOf, PendingOf, Step, Asked, HandsOut, SaysNo, GivesUp, LooksAgain;
    if i < j {
      var p := j - 1;
      ReasonsSoFar(states, events, i, p, t, n);
      AnswersTheName(states, events, i, p, t, n);
      OneStep(states, events, p, t);
      if Steps(events, p, t) { ReasonedStep(states[p], t, PcOf(states[p], t), events[p].c, PendingOf(states[p])); }
    } else {
      NotYet(n);
    }
  }

  lemma NotYet(n: Name)
    ensures !GivesUp(GetWant(n)) && !LooksAgain(GetWant(n))
  {
  }

  /** A call that ends has handed out an entry in its last step, or met a moment that says no, or met the name in the
      cache and found it gone at a second look. */
  lemma EmptyHasReason(states: seq<State>, events: seq<Event>, i: nat, j: nat, t: Tid, n: Name)
    requires Run(states, events) && i < j < |states| && PcOf(states[i], t) == GetWant(n)
    requires PcOf(states[j], t).Idle? && forall k :: i < k < j ==> !PcOf(states[k], t).Idle?
    ensures HandsOut(PcOf(states[j - 1], t)).Some? || Refused(states, events, i, j, t, n)
            || (MetCached(states, events, i, j, t, n) && n !in states[j - 1].mem.sh.entries)
  {
    hide Apply, PcOf, PendingOf, Step, Asked, HandsOut, SaysNo, GivesUp, LooksAgain;
    var p := j - 1;
    ReasonsSoFar(states, events, i, p, t, n);
    AnswersTheName(states, events, i, p, t, n);
    OneStep(states, events, p, t);
    WantsFirst(n);
    if Steps(events, p, t) { ReasonedStep(states[p], t, PcOf(states[p], t), events[p].c, PendingOf(states[p])); }
    ReturnHandsOut(PcOf(states[p], t));
  }

  lemma WantsFirst(n: Name)
    ensures !GetWant(n).Idle?
  {
  }

  lemma ReturnHandsOut(pc: Pc)
    ensures pc.Return? ==> HandsOut(pc).Some?
  {
  }
}
