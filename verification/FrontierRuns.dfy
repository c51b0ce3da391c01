/**
  Runs of the frontier: every transaction of FrontierModel, the passing of time, and workers
  that crash, in any interleaving. `live` is the ghost worker state: the claims handed out that
  are neither finished nor lost to a crash.
 */
module FrontierRuns {
  import opened Prelude
  import opened FrontierBackoff
  import opened FrontierModel

  datatype Claim = Claim(id: string, at: Time)

  datatype Sys = Sys(now: Time, db: Tables, live: set<Claim>)

  datatype Action =
    | Tick(elapsed: nat)
    | Enqueue(u: Request)
    | Reclaim
    | ClaimDue(n: int, worker: string, picks: seq<string>)
    | Complete(claim: Claim)
    | Fail(claim: Claim, message: string, maxAttempts: int, policy: Policy)
    | Crash(claim: Claim)
    | Requeue(id: string)
    | Delete(id: string)
    | UpsertHost(host: string, window: int, concurrency: int)
    | SetWindow(host: string, window: int)
    | SetConcurrency(host: string, concurrency: int)

  /** The only guard the database itself imposes: Dequeue claims what its two queries select. */
  ghost predicate Enabled(s: Sys, a: Action) {
    a.ClaimDue? ==> ValidPicks(s.db, a.n, s.now, a.picks)
  }

  function Apply(s: Sys, a: Action): Sys {
    match a
    case Tick(d) => s.(now := s.now + d)
    case Enqueue(u) => s.(db := AfterEnqueueOne(s.db, u, s.now))
    case Reclaim => s.(db := ReclaimStep(s.db, s.now))
    case ClaimDue(_, worker, picks) =>
      s.(db := ClaimStep(s.db, SetOf(picks), s.now, worker),
         live := s.live + set id | id in picks :: Claim(id, s.now))
    case Complete(c) => s.(db := CompleteStep(s.db, c.id, s.now), live := s.live - {c})
    case Fail(c, message, maxAttempts, policy) =>
      s.(db := FailStep(s.db, c.id, s.now, message, maxAttempts, policy), live := s.live - {c})
    case Crash(c) => s.(live := s.live - {c})
    case Requeue(id) => s.(db := RequeueStep(s.db, id))
    case Delete(id) => s.(db := DeleteStep(s.db, id))
    case UpsertHost(h, w, c) => s.(db := UpsertHostStep(s.db, h, w, c))
    case SetWindow(h, w) => s.(db := SetWindowStep(s.db, h, w))
    case SetConcurrency(h, c) => s.(db := SetConcurrencyStep(s.db, h, c))
  }

  /** The discipline the lease is sized for: a worker finishes each claim at most once and within
      its deadline, and operators leave in-flight rows alone. */
  predicate Disciplined(s: Sys, a: Action) {
    match a
    case Complete(c) => c in s.live && s.now <= c.at + WORKER_DEADLINE
    case Fail(c, _, _, _) => c in s.live && s.now <= c.at + WORKER_DEADLINE
    case Requeue(id) => id in s.db.rows ==> s.db.rows[id].state != InFlight
    case Delete(id) => id in s.db.rows ==> s.db.rows[id].state != InFlight
    case _ => true
  }

  datatype Trace = Trace(states: seq<Sys>, acts: seq<Action>)

  ghost predicate Run(tr: Trace) {
    && |tr.states| == |tr.acts| + 1
    && forall i :: 0 <= i < |tr.acts| ==>
         Enabled(tr.states[i], tr.acts[i]) && tr.states[i + 1] == Apply(tr.states[i], tr.acts[i])
  }

  ghost predicate DisciplinedRun(tr: Trace) {
    && Run(tr)
    && tr.states[0].db == EMPTY_TABLES && tr.states[0].live == {}
    && forall i :: 0 <= i < |tr.acts| ==> Disciplined(tr.states[i], tr.acts[i])
  }

  // ---- Exact slot accounting ----

  predicate Unexpired(s: Sys, c: Claim) {
    c in s.live && s.now <= c.at + WORKER_DEADLINE
  }

  ghost predicate ClaimsBacked(s: Sys) {
    && (forall c :: Unexpired(s, c) ==>
          c.id in s.db.rows && s.db.rows[c.id].state == InFlight && s.db.rows[c.id].claimedAt == Some(c.at))
    && (forall c :: c in s.live ==> c.at <= s.now)
  }

  ghost predicate Inv(s: Sys) {
    IndexExact(s.db) && HostsKnown(s.db) && SlotsExact(s.db) && ClaimsBacked(s)
  }

  /** Neither rows, canonical URLs and hosts of rows, nor the index change; hosts may be added. */
  ghost predicate SameShape(t: Tables, t': Tables) {
    && t'.rows.Keys == t.rows.Keys && t'.index == t.index && t.hosts.Keys <= t'.hosts.Keys
    && forall id :: id in t.rows ==>
         t'.rows[id].canonical == t.rows[id].canonical && t'.rows[id].host == t.rows[id].host
  }

  lemma ShapeKeepsTables(t: Tables, t': Tables)
    requires IndexExact(t) && HostsKnown(t) && SameShape(t, t')
    ensures IndexExact(t') && HostsKnown(t')
  {
  }

  lemma DeleteKeepsTables(t: Tables, id: string)
    requires IndexExact(t) && HostsKnown(t)
    ensures IndexExact(DeleteStep(t, id)) && HostsKnown(DeleteStep(t, id))
  {
  }

  lemma StepKeepsTables(s: Sys, a: Action)
    requires IndexExact(s.db) && HostsKnown(s.db)
    ensures IndexExact(Apply(s, a).db) && HostsKnown(Apply(s, a).db)
  {
    hide IndexExact, HostsKnown, EnqueueOne, ValidPicks;
    if a.Enqueue? {
      EnqueueKeepsTables(s.db, a.u, s.now);
    } else if a.Delete? {
      DeleteKeepsTables(s.db, a.id);
    } else {
      assert SameShape(s.db, Apply(s, a).db);
      ShapeKeepsTables(s.db, Apply(s, a).db);
    }
  }

  /** A step leaves the row of every unexpired claim that it does not itself finish as it was,
      priority aside. */
  lemma StepSparesClaim(s: Sys, a: Action, c: Claim)
    requires Enabled(s, a) && Disciplined(s, a) && c.id in s.db.rows
    requires s.db.rows[c.id].state == InFlight && s.db.rows[c.id].claimedAt == Some(c.at)
    requires s.now <= c.at + WORKER_DEADLINE
    requires (a.Complete? || a.Fail?) ==> a.claim.id != c.id
    ensures c.id in Apply(s, a).db.rows
    ensures Apply(s, a).db.rows[c.id].state == InFlight && Apply(s, a).db.rows[c.id].claimedAt == Some(c.at)
  {
  }

  lemma StepKeepsClaims(s: Sys, a: Action)
    requires Inv(s) && Enabled(s, a) && Disciplined(s, a)
    ensures ClaimsBacked(Apply(s, a))
  {
    var s' := Apply(s, a);
    forall c | c in s'.live ensures c.at <= s'.now {
    }
    forall c | Unexpired(s', c)
      ensures c.id in s'.db.rows && s'.db.rows[c.id].state == InFlight && s'.db.rows[c.id].claimedAt == Some(c.at)
    {
      if a.ClaimDue? && c !in s.live {
        assert c.id in SetOf(a.picks) && c.at == s.now;
      } else {
        assert Unexpired(s, c);
        if a.Complete? || a.Fail? {
          assert Unexpired(s, a.claim) && c != a.claim;
        }
        StepSparesClaim(s, a, c);
      }
    }
  }

  lemma StepKeepsSlots(s: Sys, a: Action)
    requires Inv(s) && Enabled(s, a) && Disciplined(s, a)
    ensures SlotsExact(Apply(s, a).db)
  {
    hide SlotsExact, IndexExact, HostsKnown, EnqueueOne, ClaimStep, ReclaimStep, InFlightOf;
    match a
    case Enqueue(u) => EnqueueKeepsSlots(s.db, u, s.now);
    case Reclaim => ReclaimKeepsSlots(s.db, s.now);
    case ClaimDue(_, worker, picks) => ClaimKeepsSlots(s.db, picks, s.now, worker);
    case Complete(c) =>
      assert Unexpired(s, c);
      FinishKeepsSlotsIff(s.db, c.id, CompleteStep(s.db, c.id, s.now).rows[c.id], true);
    case Fail(c, message, maxAttempts, policy) =>
      assert Unexpired(s, c);
      FinishKeepsSlotsIff(s.db, c.id, FailedRow(s.db.rows[c.id], s.now, message, maxAttempts, policy), false);
    case Requeue(id) => RequeueKeepsSlotsIff(s.db, id);
    case Delete(id) => DeleteKeepsSlotsIff(s.db, id);
    case UpsertHost(h, w, c) => HostSettingsKeepSlots(s.db, h, w, c);
    case SetWindow(h, w) => HostSettingsKeepSlots(s.db, h, w, 1);
    case SetConcurrency(h, c) => HostSettingsKeepSlots(s.db, h, 1, c);
    case _ =>
  }

  lemma {:induction false} DisciplinedRunKeepsInv(tr: Trace, k: nat)
    requires DisciplinedRun(tr) && k < |tr.states|
    ensures Inv(tr.states[k])
  {
    if k > 0 {
      hide Apply, Enabled, Disciplined, IndexExact, HostsKnown, SlotsExact, ClaimsBacked;
      DisciplinedRunKeepsInv(tr, k - 1);
      StepKeepsTables(tr.states[k - 1], tr.acts[k - 1]);
      StepKeepsSlots(tr.states[k - 1], tr.acts[k - 1]);
      StepKeepsClaims(tr.states[k - 1], tr.acts[k - 1]);
    }
  }

  /** In every state of every disciplined run each host's slot counter is the number of its
      in-flight rows, and every unexpired claim still owns its row. */
  lemma SlotAccountingIsExact(tr: Trace, k: nat)
    requires DisciplinedRun(tr) && k < |tr.states|
    ensures SlotsExact(tr.states[k].db)
    ensures forall c :: Unexpired(tr.states[k], c) ==>
              c.id in tr.states[k].db.rows && tr.states[k].db.rows[c.id].state == InFlight
  {
    DisciplinedRunKeepsInv(tr, k);
  }

  /** Reclaim never takes a row from a worker that may still finish it. */
  lemma ReclaimSparesLiveClaims(tr: Trace, k: nat, c: Claim)
    requires DisciplinedRun(tr) && k < |tr.acts| && tr.acts[k].Reclaim? && Unexpired(tr.states[k], c)
    ensures c.id in tr.states[k].db.rows && tr.states[k + 1].db.rows[c.id] == tr.states[k].db.rows[c.id]
  {
    DisciplinedRunKeepsInv(tr, k);
  }

  /** No decrement of a disciplined run is cut short by the clamp at zero. */
  lemma ClampNeverBites(tr: Trace, k: nat)
    requires DisciplinedRun(tr) && k < |tr.acts|
    ensures tr.acts[k].Complete? || tr.acts[k].Fail? ==>
              && tr.acts[k].claim.id in tr.states[k].db.rows
              && var h := tr.states[k].db.rows[tr.acts[k].claim.id].host;
                 h in tr.states[k].db.hosts && tr.states[k].db.hosts[h].concurrencyNow >= 1
    ensures tr.acts[k].Reclaim? ==>
              forall h :: h in tr.states[k].db.hosts ==>
                |StaleOf(tr.states[k].db.rows, h, tr.states[k].now)| <= tr.states[k].db.hosts[h].concurrencyNow
  {
    var s := tr.states[k];
    DisciplinedRunKeepsInv(tr, k);
    ReclaimKeepsSlots(s.db, s.now);
    if tr.acts[k].Complete? || tr.acts[k].Fail? {
      var id := tr.acts[k].claim.id;
      assert Unexpired(s, tr.acts[k].claim);
      assert id in InFlightOf(s.db.rows, s.db.rows[id].host);
    }
  }

  // ---- Conservation of claims ----

  datatype Flow = Flow(claims: nat, reclaims: nat)

  /** The claims made on a host and the leases reclaimed from it in the first k steps. */
  function FlowOf(tr: Trace, h: string, k: nat): Flow
    requires |tr.states| == |tr.acts| + 1 && k <= |tr.acts|
  {
    if k == 0 then Flow(0, 0)
    else
      var f, s, a := FlowOf(tr, h, k - 1), tr.states[k - 1], tr.acts[k - 1];
      Flow(f.claims + (if ClaimsOn(s, a, h) then 1 else 0),
           f.reclaims + (if a.Reclaim? then |StaleOf(s.db.rows, h, s.now)| else 0))
  }

  function Finished(t: Tables, h: string): nat {
    if h in t.hosts then t.hosts[h].okCount + t.hosts[h].errCount else 0
  }

  function Taken(t: Tables, h: string): nat {
    if h in t.hosts then t.hosts[h].concurrencyNow else 0
  }

  lemma UnknownHostIsQuiet(s: Sys, a: Action, h: string)
    requires HostsKnown(s.db) && Enabled(s, a) && h !in s.db.hosts
    ensures !ClaimsOn(s, a, h) && StaleOf(s.db.rows, h, s.now) == {}
  {
  }

  /** One step moves a host's claims between taken, finished and reclaimed and loses none. */
  lemma StepConservesClaims(s: Sys, a: Action, h: string)
    requires Inv(s) && Enabled(s, a) && Disciplined(s, a)
    ensures Finished(Apply(s, a).db, h) + Taken(Apply(s, a).db, h)
            + (if a.Reclaim? then |StaleOf(s.db.rows, h, s.now)| else 0)
            == Finished(s.db, h) + Taken(s.db, h) + (if ClaimsOn(s, a, h) then 1 else 0)
  {
    hide Apply, Enabled, SlotsExact, IndexExact, HostsKnown, ClaimsBacked, ClaimsOn, StaleOf;
    if h !in s.db.hosts {
      UnknownHostIsQuiet(s, a, h);
      NewHostStartsEmpty(s, a, h);
    } else if a.Complete? || a.Fail? {
      FinishFreesASlot(s, a.claim);
      FinishMovesOne(s, a, h);
    } else if a.Reclaim? {
      ReclaimMovesStale(s, a, h);
    } else {
      OthersMoveNone(s, a, h);
    }
  }

  lemma NewHostStartsEmpty(s: Sys, a: Action, h: string)
    requires h !in s.db.hosts
    ensures Finished(Apply(s, a).db, h) == 0 && Taken(Apply(s, a).db, h) == 0
  {
  }

  lemma ReclaimMovesStale(s: Sys, a: Action, h: string)
    requires SlotsExact(s.db) && a.Reclaim? && h in s.db.hosts
    ensures Finished(Apply(s, a).db, h) == Finished(s.db, h) && !ClaimsOn(s, a, h)
    ensures Taken(Apply(s, a).db, h) + |StaleOf(s.db.rows, h, s.now)| == Taken(s.db, h)
  {
    ReclaimKeepsSlots(s.db, s.now);
  }

  lemma FinishMovesOne(s: Sys, a: Action, h: string)
    requires (a.Complete? || a.Fail?) && a.claim.id in s.db.rows && h in s.db.hosts
    requires var g := s.db.rows[a.claim.id].host; g in s.db.hosts && g != "" && s.db.hosts[g].concurrencyNow >= 1
    ensures Finished(Apply(s, a).db, h) + Taken(Apply(s, a).db, h) == Finished(s.db, h) + Taken(s.db, h)
    ensures !ClaimsOn(s, a, h)
  {
    hide MachineBackoff;
  }

  lemma OthersMoveNone(s: Sys, a: Action, h: string)
    requires h in s.db.hosts && !a.Complete? && !a.Fail? && !a.Reclaim?
    ensures Finished(Apply(s, a).db, h) == Finished(s.db, h)
    ensures Taken(Apply(s, a).db, h) == Taken(s.db, h) + (if ClaimsOn(s, a, h) then 1 else 0)
  {
    hide HostsOf, EnqueueOne;
    if a.Enqueue? { EnqueueSparesHosts(s.db, a.u, s.now, h); }
  }

  lemma FinishFreesASlot(s: Sys, c: Claim)
    requires Inv(s) && Unexpired(s, c)
    ensures c.id in s.db.rows
    ensures var h := s.db.rows[c.id].host; h in s.db.hosts && h != "" && s.db.hosts[h].concurrencyNow >= 1
  {
    assert c.id in InFlightOf(s.db.rows, s.db.rows[c.id].host);
  }

  /** Every claim ever made on a host is finished with success, finished with an error, reclaimed,
      or still holds one of its slots. */
  lemma {:induction false} ClaimsAreConserved(tr: Trace, h: string, k: nat)
    requires DisciplinedRun(tr) && k <= |tr.acts|
    ensures FlowOf(tr, h, k).claims ==
            Finished(tr.states[k].db, h) + FlowOf(tr, h, k).reclaims + Taken(tr.states[k].db, h)
  {
    if k > 0 {
      hide Apply, Enabled, Disciplined, Inv, ClaimsOn, StaleOf, Finished, Taken;
      ClaimsAreConserved(tr, h, k - 1);
      DisciplinedRunKeepsInv(tr, k - 1);
      StepConservesClaims(tr.states[k - 1], tr.acts[k - 1], h);
    }
  }

  predicate FinishesOn(s: Sys, c: Claim, h: string) { c.id in s.db.rows && s.db.rows[c.id].host == h }

  /** The Complete and Fail calls that reached a row of the host in the first k steps. */
  function Outcomes(tr: Trace, h: string, k: nat): (nat, nat)
    requires |tr.states| == |tr.acts| + 1 && k <= |tr.acts|
  {
    if k == 0 then (0, 0)
    else
      var (ok, err) := Outcomes(tr, h, k - 1);
      var s, a := tr.states[k - 1], tr.acts[k - 1];
      (ok + (if a.Complete? && FinishesOn(s, a.claim, h) then 1 else 0),
       err + (if a.Fail? && FinishesOn(s, a.claim, h) then 1 else 0))
  }

  function HostCounts(t: Tables, h: string): (nat, nat) {
    if h in t.hosts then (t.hosts[h].okCount, t.hosts[h].errCount) else (0, 0)
  }

  lemma StepCountsOutcome(s: Sys, a: Action, h: string)
    requires HostsKnown(s.db)
    ensures HostCounts(Apply(s, a).db, h) ==
            (HostCounts(s.db, h).0 + (if a.Complete? && FinishesOn(s, a.claim, h) then 1 else 0),
             HostCounts(s.db, h).1 + (if a.Fail? && FinishesOn(s, a.claim, h) then 1 else 0))
  {
    hide EnqueueOne, HostsOf, StaleOf, MachineBackoff;
    if a.Enqueue? {
      EnqueueSparesHosts(s.db, a.u, s.now, h);
      if h !in s.db.hosts { NewHostStartsEmpty(s, a, h); }
    }
  }

  /** In every run, disciplined or not, a host's success and error counters are the numbers of
      Complete and Fail calls that reached its rows. */
  lemma {:induction false} CountersTellOutcomes(tr: Trace, h: string, k: nat)
    requires Run(tr) && tr.states[0].db == EMPTY_TABLES && k <= |tr.acts|
    ensures IndexExact(tr.states[k].db) && HostsKnown(tr.states[k].db)
    ensures HostCounts(tr.states[k].db, h) == Outcomes(tr, h, k)
  {
    if k > 0 {
      hide Apply, Enabled, IndexExact, HostsKnown, HostCounts, FinishesOn;
      CountersTellOutcomes(tr, h, k - 1);
      StepKeepsTables(tr.states[k - 1], tr.acts[k - 1]);
      StepCountsOutcome(tr.states[k - 1], tr.acts[k - 1], h);
    }
  }

  // ---- Abandoned leases never shut a host for good ----

  /** A request of the host in the past. */
  predicate HostStamped(t: Tables, h: string, now: Time) {
    h in t.hosts && t.hosts[h].concurrencyMax >= 1
    && (t.hosts[h].lastRequestAt.Some? ==> t.hosts[h].lastRequestAt.value <= now)
  }

  /** A row in flight was claimed no later than its host's last request. */
  predicate RowStamped(t: Tables, id: string) {
    && id in t.rows && t.rows[id].host in t.hosts
    && (t.rows[id].state == InFlight ==>
          && t.rows[id].claimedAt.Some? && t.hosts[t.rows[id].host].lastRequestAt.Some?
          && t.rows[id].claimedAt.value <= t.hosts[t.rows[id].host].lastRequestAt.value)
  }

  ghost predicate RequestsStamped(s: Sys) {
    && (forall h :: h in s.db.hosts ==> HostStamped(s.db, h, s.now))
    && (forall id :: id in s.db.rows ==> RowStamped(s.db, id))
  }

  lemma StepKeepsHostStamp(s: Sys, a: Action, h: string)
    requires h in s.db.hosts ==> HostStamped(s.db, h, s.now)
    ensures h in Apply(s, a).db.hosts ==> HostStamped(Apply(s, a).db, h, Apply(s, a).now)
  {
  }

  lemma StepKeepsRowStamp(s: Sys, a: Action, id: string)
    requires id in s.db.rows && RowStamped(s.db, id) && HostStamped(s.db, s.db.rows[id].host, s.now)
    ensures id in Apply(s, a).db.rows ==> RowStamped(Apply(s, a).db, id)
  {
  }

  lemma NewRowIsStamped(s: Sys, a: Action, id: string)
    requires id !in s.db.rows && id in Apply(s, a).db.rows
    ensures RowStamped(Apply(s, a).db, id)
  {
  }

  lemma StepKeepsStamps(s: Sys, a: Action)
    requires RequestsStamped(s)
    ensures RequestsStamped(Apply(s, a))
  {
    hide Apply, HostStamped, RowStamped;
    var s' := Apply(s, a);
    forall h | h in s'.db.hosts ensures HostStamped(s'.db, h, s'.now) {
      StepKeepsHostStamp(s, a, h);
    }
    forall id | id in s'.db.rows ensures RowStamped(s'.db, id) {
      if id in s.db.rows {
        assert RowStamped(s.db, id);
        RowsHostIsStamped(s, id);
        StepKeepsRowStamp(s, a, id);
      } else {
        NewRowIsStamped(s, a, id);
      }
    }
  }

  lemma RowsHostIsStamped(s: Sys, id: string)
    requires RequestsStamped(s) && id in s.db.rows
    ensures HostStamped(s.db, s.db.rows[id].host, s.now)
  {
    assert RowStamped(s.db, id);
  }

  lemma {:induction false} RunKeepsStamps(tr: Trace, k: nat)
    requires Run(tr) && tr.states[0].db == EMPTY_TABLES && k < |tr.states|
    ensures RequestsStamped(tr.states[k])
  {
    if k > 0 {
      hide Apply, Enabled, RequestsStamped;
      RunKeepsStamps(tr, k - 1);
      StepKeepsStamps(tr.states[k - 1], tr.acts[k - 1]);
    }
  }

  /** A reclaim frees every slot of a host whose last request is older than a lease, however its
      workers died, so the host is open again as soon as its politeness window allows. */
  lemma ReclaimReopensQuietHost(tr: Trace, k: nat, h: string)
    requires DisciplinedRun(tr) && k < |tr.acts| && tr.acts[k].Reclaim? && h in tr.states[k].db.hosts
    requires var last := tr.states[k].db.hosts[h].lastRequestAt;
             last.Some? ==> last.value < tr.states[k].now - STALE_LEASE
    ensures var s' := tr.states[k + 1];
            && h in s'.db.hosts && s'.db.hosts[h].concurrencyNow == 0 && InFlightOf(s'.db.rows, h) == {}
            && (HostOpen(s'.db, h, s'.now) <==>
                  s'.db.hosts[h].nextEligibleAt.None? || s'.db.hosts[h].nextEligibleAt.value <= s'.now)
  {
    var s, s' := tr.states[k], tr.states[k + 1];
    RunKeepsStamps(tr, k);
    RunKeepsStamps(tr, k + 1);
    DisciplinedRunKeepsInv(tr, k + 1);
    assert s'.db == ReclaimStep(s.db, s.now);
    forall id | id in s.db.rows && s.db.rows[id].host == h && s.db.rows[id].state == InFlight
      ensures Stale(s.db.rows[id], s.now)
    {
      assert RowStamped(s.db, id);
    }
    assert InFlightOf(s'.db.rows, h) == {};
    assert HostStamped(s'.db, h, s'.now);
  }

  // ---- The per-host ceiling ----

  predicate WithinCap(t: Tables, h: string) {
    h in t.hosts ==> t.hosts[h].concurrencyNow <= t.hosts[h].concurrencyMax
  }

  /** An operator lowering the ceiling under the slots already taken. */
  predicate LowersBelow(s: Sys, a: Action, h: string) {
    a.SetConcurrency? && a.host == h && h in s.db.hosts && 0 < a.concurrency < s.db.hosts[h].concurrencyNow
  }

  /** One transaction takes a host over its ceiling exactly when an operator pulls the ceiling
      below the slots already taken, and never otherwise, disciplined or not. */
  lemma StepKeepsCapIff(s: Sys, a: Action, h: string)
    requires WithinCap(s.db, h) && Enabled(s, a)
    ensures WithinCap(Apply(s, a).db, h) <==> !LowersBelow(s, a, h)
  {
  }

  lemma {:induction false} CapHoldsThroughout(tr: Trace, h: string, k: nat)
    requires Run(tr) && WithinCap(tr.states[0].db, h) && k < |tr.states|
    requires forall i :: 0 <= i < |tr.acts| ==> !LowersBelow(tr.states[i], tr.acts[i], h)
    ensures WithinCap(tr.states[k].db, h)
  {
    hide Apply, Enabled, WithinCap;
    if k > 0 {
      CapHoldsThroughout(tr, h, k - 1);
      StepKeepsCapIff(tr.states[k - 1], tr.acts[k - 1], h);
    }
  }

  /** In a disciplined run whose operators never lower a ceiling under the load, at most
      concurrency_max rows of a host are ever in flight together. */
  lemma InFlightNeverExceedsCap(tr: Trace, h: string, k: nat)
    requires DisciplinedRun(tr) && k < |tr.states| && h in tr.states[k].db.hosts
    requires forall i :: 0 <= i < |tr.acts| ==> !LowersBelow(tr.states[i], tr.acts[i], h)
    ensures |InFlightOf(tr.states[k].db.rows, h)| <= tr.states[k].db.hosts[h].concurrencyMax
  {
    CapHoldsThroughout(tr, h, k);
    DisciplinedRunKeepsInv(tr, k);
  }

  // ---- Politeness ----

  predicate ClaimsOn(s: Sys, a: Action, h: string) {
    a.ClaimDue? && h in HostsOf(s.db.rows, SetOf(a.picks))
  }

  ghost predicate WindowFixed(tr: Trace, h: string, w: nat, lo: nat, hi: nat) {
    forall i :: lo <= i <= hi && i < |tr.states| ==>
      h in tr.states[i].db.hosts && tr.states[i].db.hosts[h].windowMinutes == w
  }

  predicate ClosedUntil(t: Tables, h: string, until: Time) {
    h in t.hosts && t.hosts[h].nextEligibleAt.Some? && t.hosts[h].nextEligibleAt.value >= until
  }

  lemma StepKeepsClosed(s: Sys, a: Action, h: string, until: Time)
    requires Enabled(s, a) && ClosedUntil(s.db, h, until)
    ensures ClosedUntil(Apply(s, a).db, h, until)
    ensures ClaimsOn(s, a, h) ==> s.now >= until
  {
    hide ValidPicks, HostsOf, EnqueueOne;
    if a.Enqueue? { EnqueueSparesHosts(s.db, a.u, s.now, h); }
    if a.ClaimDue? {
      if ClaimsOn(s, a, h) { ClaimNeedsOpenHost(s.db, a.n, s.now, a.picks, h); }
    }
  }

  lemma EnqueueSparesHosts(t: Tables, u: Request, now: Time, h: string)
    ensures h in t.hosts ==> h in AfterEnqueueOne(t, u, now).hosts && AfterEnqueueOne(t, u, now).hosts[h] == t.hosts[h]
  {
  }

  lemma ClaimNeedsOpenHost(t: Tables, n: int, now: Time, picks: seq<string>, h: string)
    requires ValidPicks(t, n, now, picks) && h in HostsOf(t.rows, SetOf(picks))
    ensures HostOpen(t, h, now)
  {
  }

  lemma {:induction false} ClosedPersists(tr: Trace, h: string, until: Time, i: nat, j: nat)
    requires Run(tr) && i <= j < |tr.states| && ClosedUntil(tr.states[i].db, h, until)
    ensures ClosedUntil(tr.states[j].db, h, until)
    decreases j - i
  {
    hide Apply, Enabled, ClosedUntil;
    if i < j {
      ClosedPersists(tr, h, until, i, j - 1);
      StepKeepsClosed(tr.states[j - 1], tr.acts[j - 1], h, until);
    }
  }

  /** Any two claims on a host are a full politeness window apart, whatever completes, fails, is
      reclaimed, requeued or enqueued in between, and whether or not workers are disciplined. */
  lemma ClaimsAreAWindowApart(tr: Trace, h: string, w: nat, i: nat, j: nat)
    requires Run(tr) && i < j < |tr.acts|
    requires h in tr.states[i].db.hosts && tr.states[i].db.hosts[h].windowMinutes == w
    requires ClaimsOn(tr.states[i], tr.acts[i], h) && ClaimsOn(tr.states[j], tr.acts[j], h)
    ensures tr.states[j].now >= tr.states[i].now + w * MINUTE
  {
    var until := tr.states[i].now + w * MINUTE;
    assert ClosedUntil(tr.states[i + 1].db, h, until);
    ClosedPersists(tr, h, until, i + 1, j);
    StepKeepsClosed(tr.states[j], tr.acts[j], h, until);
  }

  ghost function ClaimTimes(tr: Trace, h: string, lo: nat, hi: nat): seq<Time>
    requires |tr.states| == |tr.acts| + 1 && lo <= hi <= |tr.acts|
    decreases hi
  {
    if lo == hi then []
    else if ClaimsOn(tr.states[hi - 1], tr.acts[hi - 1], h) then ClaimTimes(tr, h, lo, hi - 1) + [tr.states[hi - 1].now]
    else ClaimTimes(tr, h, lo, hi - 1)
  }

  lemma {:induction false} LastClaim(tr: Trace, h: string, lo: nat, hi: nat) returns (i: nat)
    requires |tr.states| == |tr.acts| + 1 && lo <= hi <= |tr.acts| && |ClaimTimes(tr, h, lo, hi)| > 0
    ensures lo <= i < hi && ClaimsOn(tr.states[i], tr.acts[i], h)
    ensures var ts := ClaimTimes(tr, h, lo, hi); tr.states[i].now == ts[|ts| - 1]
    decreases hi
  {
    if ClaimsOn(tr.states[hi - 1], tr.acts[hi - 1], h) {
      i := hi - 1;
    } else {
      i := LastClaim(tr, h, lo, hi - 1);
    }
  }

  /** Claim times inside a stretch of a run are spaced by the window: the n-th is at least
      (n - 1) windows after the first. */
  lemma {:induction false} ClaimTimesSpread(tr: Trace, h: string, w: nat, lo: nat, hi: nat)
    requires Run(tr) && lo <= hi <= |tr.acts| && WindowFixed(tr, h, w, lo, hi)
    ensures var ts := ClaimTimes(tr, h, lo, hi);
            |ts| > 0 ==> (|ts| - 1) * (w * MINUTE) <= ts[|ts| - 1] - ts[0]
    decreases hi
  {
    hide Apply, Enabled, ClaimsOn;
    if lo < hi {
      ClaimTimesSpread(tr, h, w, lo, hi - 1);
      var ts := ClaimTimes(tr, h, lo, hi - 1);
      if ClaimsOn(tr.states[hi - 1], tr.acts[hi - 1], h) && |ts| > 0 {
        var i := LastClaim(tr, h, lo, hi - 1);
        ClaimsAreAWindowApart(tr, h, w, i, hi - 1);
        OneMoreStep(|ts|, w * MINUTE);
      }
    }
  }

  lemma OneMoreStep(n: nat, step: int)
    ensures n * step == (n - 1) * step + step
  {
  }

  lemma {:induction false} ClockNeverRunsBack(tr: Trace, i: nat, j: nat)
    requires Run(tr) && i <= j < |tr.states|
    ensures tr.states[i].now <= tr.states[j].now
    decreases j
  {
    if i < j { ClockNeverRunsBack(tr, i, j - 1); }
  }

  lemma {:induction false} ClaimTimesWithin(tr: Trace, h: string, lo: nat, hi: nat)
    requires Run(tr) && lo <= hi <= |tr.acts|
    ensures forall t :: t in ClaimTimes(tr, h, lo, hi) ==> tr.states[lo].now <= t <= tr.states[hi].now
    decreases hi
  {
    hide Apply, Enabled, ClaimsOn;
    if lo < hi {
      ClaimTimesWithin(tr, h, lo, hi - 1);
      ClockNeverRunsBack(tr, lo, hi - 1);
      ClockNeverRunsBack(tr, hi - 1, hi);
    }
  }

  /** A stretch of a run that lasts `span` holds at most span / window + 1 claims on a host. */
  lemma ClaimRateIsBounded(tr: Trace, h: string, w: nat, lo: nat, hi: nat)
    requires Run(tr) && lo <= hi <= |tr.acts| && w > 0 && WindowFixed(tr, h, w, lo, hi)
    ensures |ClaimTimes(tr, h, lo, hi)| <= (tr.states[hi].now - tr.states[lo].now) / (w * MINUTE) + 1
  {
    var ts, span, step := ClaimTimes(tr, h, lo, hi), tr.states[hi].now - tr.states[lo].now, w * MINUTE;
    ClockNeverRunsBack(tr, lo, hi);
    if |ts| > 0 {
      ClaimTimesSpread(tr, h, w, lo, hi);
      ClaimTimesWithin(tr, h, lo, hi);
      assert ts[0] in ts && ts[|ts| - 1] in ts;
      QuotientBound(|ts| - 1, step, span);
    } else {
      QuotientBound(0, step, span);
    }
  }

  lemma QuotientBound(n: nat, step: int, span: int)
    requires step > 0 && n * step <= span
    ensures n <= span / step
  {
    var q := span / step;
    assert span == q * step + span % step;
    assert (q + 1) * step == q * step + step;
    assert n * step < (q + 1) * step;
  }

  // ---- A failed row waits out its backoff ----

  /** The row cannot be claimed before `until`, or that time has come. */
  predicate Waits(s: Sys, id: string, until: Time) {
    || s.now >= until
    || (&& id in s.db.rows && s.db.rows[id].state != InFlight
        && (s.db.rows[id].state == Pending ==>
              s.db.rows[id].nextAttemptAt.Some? && s.db.rows[id].nextAttemptAt.value >= until))
  }

  /** The steps that set a new time for the row or drop it. */
  predicate Reschedules(a: Action, id: string) {
    (a.Fail? && a.claim.id == id) || a == Requeue(id) || a == Delete(id)
  }

  lemma StepKeepsWaiting(s: Sys, a: Action, id: string, until: Time)
    requires Enabled(s, a) && Waits(s, id, until) && !Reschedules(a, id)
    ensures Waits(Apply(s, a), id, until)
    ensures a.ClaimDue? && id in a.picks ==> s.now >= until
  {
    if a.ClaimDue? && id in a.picks {
      hide NoWorse;
      assert exists i :: 0 <= i < |a.picks| && a.picks[i] == id;
      assert DueOn(s.db, s.db.rows[id].host, id, s.now);
    }
  }

  lemma {:induction false} WaitingPersists(tr: Trace, id: string, until: Time, i: nat, j: nat)
    requires Run(tr) && i <= j < |tr.states| && Waits(tr.states[i], id, until)
    requires forall k :: i <= k < j ==> !Reschedules(tr.acts[k], id)
    ensures Waits(tr.states[j], id, until)
    decreases j
  {
    hide Apply, Enabled, Waits;
    if i < j {
      WaitingPersists(tr, id, until, i, j - 1);
      StepKeepsWaiting(tr.states[j - 1], tr.acts[j - 1], id, until);
    }
  }

  /** A row that fails with budget left is not claimed again before its backoff is over, unless it
      fails again or an operator requeues or deletes it. */
  lemma FailureDelaysNextClaim(tr: Trace, id: string, i: nat, j: nat)
    requires Run(tr) && i < j < |tr.acts| && tr.acts[i].Fail? && tr.acts[i].claim.id == id && id in tr.states[i].db.rows
    requires tr.acts[j].ClaimDue? && id in tr.acts[j].picks
    requires forall k :: i < k < j ==> !Reschedules(tr.acts[k], id)
    ensures var attempts := tr.states[i].db.rows[id].attempts;
            attempts < Max(tr.acts[i].maxAttempts, 1) ==>
              tr.states[j].now >= tr.states[i].now + MachineBackoff(attempts, tr.acts[i].policy)
  {
    var until := tr.states[i].now + MachineBackoff(tr.states[i].db.rows[id].attempts, tr.acts[i].policy);
    assert Waits(tr.states[i + 1], id, until);
    WaitingPersists(tr, id, until, i + 1, j);
    StepKeepsWaiting(tr.states[j], tr.acts[j], id, until);
  }

  // ---- Attempt accounting ----

  datatype Tally = Tally(claims: nat, reclaims: nat, requeues: nat, revived: nat)

  /** What happened to the row `id` in one step: claims, lease expiries, operator requeues, and
      among those the requeues of a failed row. */
  function TallyStep(s: Sys, a: Action, id: string): Tally {
    Tally(if a.ClaimDue? && id in a.picks then 1 else 0,
          if a.Reclaim? && id in s.db.rows && Stale(s.db.rows[id], s.now) then 1 else 0,
          if a == Requeue(id) then 1 else 0,
          if a == Requeue(id) && id in s.db.rows && s.db.rows[id].state == Failed then 1 else 0)
  }

  function Add(x: Tally, y: Tally): Tally {
    Tally(x.claims + y.claims, x.reclaims + y.reclaims, x.requeues + y.requeues, x.revived + y.revived)
  }

  function TallyOf(tr: Trace, id: string, k: nat): Tally
    requires |tr.states| == |tr.acts| + 1 && k <= |tr.acts|
  {
    if k == 0 then Tally(0, 0, 0, 0)
    else Add(TallyOf(tr, id, k - 1), TallyStep(tr.states[k - 1], tr.acts[k - 1], id))
  }

  ghost predicate KeptRow(tr: Trace, id: string) {
    forall i :: 0 <= i < |tr.states| ==> id in tr.states[i].db.rows
  }

  lemma AttemptsStep(s: Sys, a: Action, id: string)
    requires Enabled(s, a) && id in s.db.rows && id in Apply(s, a).db.rows
    ensures Apply(s, a).db.rows[id].attempts ==
            s.db.rows[id].attempts + TallyStep(s, a, id).claims + TallyStep(s, a, id).revived
  {
  }

  /** A row's attempts counter is its claims plus its requeues out of `failed`. */
  lemma {:induction false} AttemptsCountClaims(tr: Trace, id: string, k: nat)
    requires Run(tr) && KeptRow(tr, id) && k <= |tr.acts|
    ensures tr.states[k].db.rows[id].attempts ==
            tr.states[0].db.rows[id].attempts + TallyOf(tr, id, k).claims + TallyOf(tr, id, k).revived
  {
    hide Apply, Enabled, TallyStep;
    if k > 0 {
      AttemptsCountClaims(tr, id, k - 1);
      assert id in tr.states[k].db.rows && tr.states[k] == Apply(tr.states[k - 1], tr.acts[k - 1]);
      AttemptsStep(tr.states[k - 1], tr.acts[k - 1], id);
    }
  }

  ghost predicate FailsWith(tr: Trace, id: string, maxAttempts: int) {
    forall i :: 0 <= i < |tr.acts| && tr.acts[i].Fail? && tr.acts[i].claim.id == id ==>
      tr.acts[i].maxAttempts == maxAttempts
  }

  predicate WithinBudget(r: Row, y: Tally, maxAttempts: int) {
    y.claims <= Max(maxAttempts, 1) + y.reclaims + y.requeues - (if r.state == Pending then 1 else 0)
  }

  lemma BudgetStep(s: Sys, a: Action, id: string, y: Tally, maxAttempts: int)
    requires Enabled(s, a) && id in s.db.rows && id in Apply(s, a).db.rows
    requires a.Fail? && a.claim.id == id ==> a.maxAttempts == maxAttempts
    requires y.claims <= s.db.rows[id].attempts && WithinBudget(s.db.rows[id], y, maxAttempts)
    ensures WithinBudget(Apply(s, a).db.rows[id], Add(y, TallyStep(s, a, id)), maxAttempts)
  {
  }

  /** Starting from a freshly enqueued row, claims never exceed the retry budget plus one for
      every expired lease and every operator requeue. */
  lemma {:induction false} ClaimsWithinBudget(tr: Trace, id: string, maxAttempts: int, k: nat)
    requires Run(tr) && KeptRow(tr, id) && FailsWith(tr, id, maxAttempts) && k <= |tr.acts|
    requires tr.states[0].db.rows[id].state == Pending && tr.states[0].db.rows[id].attempts == 0
    ensures WithinBudget(tr.states[k].db.rows[id], TallyOf(tr, id, k), maxAttempts)
  {
    hide Apply, Enabled, TallyStep;
    if k > 0 {
      ClaimsWithinBudget(tr, id, maxAttempts, k - 1);
      AttemptsCountClaims(tr, id, k - 1);
      var y := TallyOf(tr, id, k - 1);
      assert id in tr.states[k].db.rows && tr.states[k] == Apply(tr.states[k - 1], tr.acts[k - 1]);
      BudgetStep(tr.states[k - 1], tr.acts[k - 1], id, y, maxAttempts);
    }
  }
}
