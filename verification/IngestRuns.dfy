/** Runs of the ingest queue: producers, claims, acknowledgements, retries and the clock. */
module IngestRuns {
  import opened Prelude
  import opened FrontierBackoff
  import opened IngestQueue

  datatype Sys = Sys(now: Time, q: Queue)

  datatype Action =
    | Tick(elapsed: nat)
    | Enqueue(id: string, r: Request, maxPending: int)
    | Claim(limit: int, lease: int, owner: string, picks: seq<string>)
    | Ack(item: Item, canonicalId: string)
    | Retry(item: Item, message: string, maxAttempts: int)
    | Reject(id: string)

  /** Enqueue draws an unused id; Claim leases what its query selects. */
  ghost predicate Enabled(s: Sys, a: Action) {
    match a
    case Enqueue(id, _, _) => FreshId(s.q, id)
    case Claim(limit, _, _, picks) => ValidClaim(s.q, limit, s.now, picks)
    case _ => true
  }

  function Apply(s: Sys, a: Action): Sys {
    match a
    case Tick(d) => s.(now := s.now + d)
    case Enqueue(id, r, m) => s.(q := AfterEnqueue(s.q, id, r, m, s.now))
    case Claim(_, lease, owner, picks) => s.(q := ClaimStep(s.q, picks, owner, lease, s.now))
    case Ack(item, canonicalId) => s.(q := AfterAck(s.q, item, canonicalId))
    case Retry(item, message, maxAttempts) => s.(q := RetryStep(s.q, item, message, maxAttempts, s.now))
    case Reject(id) => s.(q := RejectStep(s.q, id))
  }

  datatype Trace = Trace(states: seq<Sys>, acts: seq<Action>)

  ghost predicate Run(tr: Trace) {
    && |tr.states| == |tr.acts| + 1
    && forall i :: 0 <= i < |tr.acts| ==>
         Enabled(tr.states[i], tr.acts[i]) && tr.states[i + 1] == Apply(tr.states[i], tr.acts[i])
  }

  /** A Retry reaches its row while that row is still processing. */
  predicate TimelyRetry(s: Sys, a: Action) {
    a.Retry? ==> a.item.id in s.q.jobs && s.q.jobs[a.item.id].status == Processing
  }

  ghost predicate TimelyRun(tr: Trace) {
    Run(tr) && tr.states[0].q == EMPTY_QUEUE && forall i :: 0 <= i < |tr.acts| ==> TimelyRetry(tr.states[i], tr.acts[i])
  }

  // ---- One row per key, one event per outcome ----

  lemma StepKeepsKeys(s: Sys, a: Action)
    requires KeysExact(s.q)
    ensures KeysExact(Apply(s, a).q)
  {
    hide KeysExact, AfterEnqueue, SameKeys;
    if a.Enqueue? {
      EnqueueKeepsKeys(s.q, a.id, a.r, a.maxPending, s.now);
    } else {
      OthersKeepKeys(s, a);
      SameKeysSuffice(s.q, Apply(s, a).q);
    }
  }

  ghost predicate SameKeys(q: Queue, q': Queue) {
    && q'.keys == q.keys && q'.variants == q.variants && q'.jobs.Keys == q.jobs.Keys
    && forall id :: id in q.jobs ==>
         q'.jobs[id].key == q.jobs[id].key && q'.jobs[id].variantId == q.jobs[id].variantId
  }

  lemma OthersKeepKeys(s: Sys, a: Action)
    requires !a.Enqueue?
    ensures SameKeys(s.q, Apply(s, a).q)
  {
  }

  lemma EnqueueKeepsKeys(q: Queue, id: string, r: Request, maxPending: int, now: Time)
    requires KeysExact(q)
    ensures KeysExact(AfterEnqueue(q, id, r, maxPending, now))
  {
  }

  lemma SameKeysSuffice(q: Queue, q': Queue)
    requires KeysExact(q) && SameKeys(q, q')
    ensures KeysExact(q')
  {
  }

  lemma StepKeepsLedger(s: Sys, a: Action)
    requires LedgerExact(s.q) && Enabled(s, a) && TimelyRetry(s, a)
    ensures LedgerExact(Apply(s, a).q)
  {
    hide LedgerExact, ValidClaim, AckStep, EnqueueStep, RetryStep, ClaimStep;
    match a
    case Enqueue(id, r, m) => EnqueueKeepsLedger(s.q, id, r, m, s.now);
    case Claim(limit, lease, owner, picks) => ClaimKeepsLedger(s.q, limit, picks, owner, lease, s.now);
    case Ack(item, canonicalId) => AckKeepsLedger(s.q, item, canonicalId);
    case Retry(item, message, maxAttempts) => RetryKeepsLedgerIff(s.q, item, message, maxAttempts, s.now);
    case Reject(id) => AuditKeepsLedger(s.q, id);
    case Tick(_) =>
  }

  /** In every state of every run with timely retries an idempotency key has at most one row, and
      that row has exactly one enqueued event; the row is processed (or dead) exactly when its
      ledger holds exactly one such event, and otherwise it holds none. No two rows share a variant. */
  lemma {:induction false} LedgerTellsTheOutcome(tr: Trace, k: nat)
    requires TimelyRun(tr) && k < |tr.states|
    ensures KeysExact(tr.states[k].q) && LedgerExact(tr.states[k].q)
  {
    if k > 0 {
      hide Apply, Enabled, TimelyRetry, LedgerExact, KeysExact;
      LedgerTellsTheOutcome(tr, k - 1);
      StepKeepsKeys(tr.states[k - 1], tr.acts[k - 1]);
      StepKeepsLedger(tr.states[k - 1], tr.acts[k - 1]);
    }
  }

  // ---- Capacity ----

  lemma StepKeepsCapacity(s: Sys, a: Action, m: int)
    requires |ActiveJobs(s.q)| <= m && Enabled(s, a) && TimelyRetry(s, a)
    requires m > 0 && (a.Enqueue? ==> a.maxPending == m)
    ensures |ActiveJobs(Apply(s, a).q)| <= m
  {
    hide ActiveJobs, ValidClaim, AckStep, EnqueueStep, RetryStep, ClaimStep;
    match a
    case Enqueue(id, r, _) => EnqueueKeepsCapacity(s.q, id, r, m, s.now);
    case Claim(limit, lease, owner, picks) => ClaimKeepsActive(s.q, limit, picks, owner, lease, s.now);
    case Ack(item, canonicalId) => AckShrinksActive(s.q, item, canonicalId);
    case Retry(item, message, maxAttempts) => RetryAddsLoadIff(s.q, item, message, maxAttempts, s.now);
    case Reject(id) => assert ActiveJobs(RejectStep(s.q, id)) == ActiveJobs(s.q) by { ActiveIgnoresLedger(s.q, id); }
    case Tick(_) =>
  }

  lemma ActiveIgnoresLedger(q: Queue, id: string)
    ensures ActiveJobs(RejectStep(q, id)) == ActiveJobs(q)
  {
  }

  /** When every producer runs with the ceiling m, unfinished work never exceeds m. */
  lemma {:induction false} CapacityHolds(tr: Trace, m: int, k: nat)
    requires TimelyRun(tr) && m > 0 && k < |tr.states|
    requires forall i :: 0 <= i < |tr.acts| && tr.acts[i].Enqueue? ==> tr.acts[i].maxPending == m
    ensures |ActiveJobs(tr.states[k].q)| <= m
  {
    if k > 0 {
      hide Apply, Enabled, TimelyRetry, ActiveJobs;
      CapacityHolds(tr, m, k - 1);
      StepKeepsCapacity(tr.states[k - 1], tr.acts[k - 1], m);
    }
  }

  // ---- Claims of one item ----

  predicate ClaimsItem(a: Action, id: string) { a.Claim? && id in a.picks }

  lemma AttemptStep(s: Sys, a: Action, id: string)
    requires id in s.q.jobs && Enabled(s, a)
    ensures id in Apply(s, a).q.jobs
    ensures Apply(s, a).q.jobs[id].attempt == s.q.jobs[id].attempt + (if ClaimsItem(a, id) then 1 else 0)
  {
  }

  lemma {:induction false} AttemptsNeverFall(tr: Trace, id: string, i: nat, j: nat)
    requires Run(tr) && i <= j < |tr.states| && id in tr.states[i].q.jobs
    ensures id in tr.states[j].q.jobs && tr.states[i].q.jobs[id].attempt <= tr.states[j].q.jobs[id].attempt
    decreases j
  {
    hide Apply, Enabled;
    if i < j {
      AttemptsNeverFall(tr, id, i, j - 1);
      AttemptStep(tr.states[j - 1], tr.acts[j - 1], id);
    }
  }

  /** The attempt number a claim hands to its worker. */
  function AttemptHanded(s: Sys, id: string): nat
    requires id in s.q.jobs
  {
    s.q.jobs[id].attempt + 1
  }

  /** Later claims of an item carry greater attempt numbers. */
  lemma ClaimAttemptsIncrease(tr: Trace, id: string, i: nat, j: nat)
    requires Run(tr) && i < j < |tr.acts| && ClaimsItem(tr.acts[i], id) && ClaimsItem(tr.acts[j], id)
    ensures id in tr.states[i].q.jobs && id in tr.states[j].q.jobs
    ensures AttemptHanded(tr.states[i], id) < AttemptHanded(tr.states[j], id)
  {
    assert id in tr.states[i].q.jobs;
    AttemptStep(tr.states[i], tr.acts[i], id);
    AttemptsNeverFall(tr, id, i + 1, j);
  }

  /** The item is leased until at least `until`, or finished. */
  predicate HeldUntil(q: Queue, id: string, until: Time) {
    && id in q.jobs
    && (q.jobs[id].status == Processing || q.jobs[id].status == Processed)
    && (q.jobs[id].status == Processing ==> q.jobs[id].leaseExpiresAt.Some? && q.jobs[id].leaseExpiresAt.value >= until)
  }

  lemma StepKeepsHeld(s: Sys, a: Action, id: string, until: Time)
    requires Enabled(s, a) && HeldUntil(s.q, id, until) && !(a.Retry? && a.item.id == id)
    ensures HeldUntil(Apply(s, a).q, id, until)
    ensures ClaimsItem(a, id) ==> s.now > until
  {
  }

  lemma {:induction false} HeldPersists(tr: Trace, id: string, until: Time, i: nat, j: nat)
    requires Run(tr) && i <= j < |tr.states| && HeldUntil(tr.states[i].q, id, until)
    requires forall k :: i <= k < j ==> !(tr.acts[k].Retry? && tr.acts[k].item.id == id)
    ensures HeldUntil(tr.states[j].q, id, until)
    decreases j
  {
    hide Apply, Enabled, HeldUntil;
    if i < j {
      HeldPersists(tr, id, until, i, j - 1);
      StepKeepsHeld(tr.states[j - 1], tr.acts[j - 1], id, until);
    }
  }

  /** Two claims of an item with no Retry of it between them are more than the first one's lease
      apart, so a live lease is never handed out twice. */
  lemma ClaimsAreALeaseApart(tr: Trace, id: string, i: nat, j: nat)
    requires Run(tr) && i < j < |tr.acts| && ClaimsItem(tr.acts[i], id) && ClaimsItem(tr.acts[j], id)
    requires forall k :: i < k < j ==> !(tr.acts[k].Retry? && tr.acts[k].item.id == id)
    ensures tr.states[j].now > tr.states[i].now + EffectiveLease(tr.acts[i].lease)
  {
    var until := tr.states[i].now + EffectiveLease(tr.acts[i].lease);
    assert HeldUntil(tr.states[i + 1].q, id, until);
    HeldPersists(tr, id, until, i + 1, j);
    StepKeepsHeld(tr.states[j], tr.acts[j], id, until);
  }

  // ---- A retried item waits out its delay ----

  /** The item cannot be claimed before `until`, or that time has come. */
  predicate Waits(s: Sys, id: string, until: Time) {
    || s.now >= until
    || (&& id in s.q.jobs && s.q.jobs[id].status != Processing
        && (s.q.jobs[id].status == Pending || s.q.jobs[id].status == Retrying ==> s.q.jobs[id].availableAt >= until))
  }

  lemma StepKeepsWaiting(s: Sys, a: Action, id: string, until: Time)
    requires Enabled(s, a) && Waits(s, id, until) && !(a.Retry? && a.item.id == id)
    ensures Waits(Apply(s, a), id, until)
    ensures ClaimsItem(a, id) ==> s.now >= until
  {
    if ClaimsItem(a, id) {
      hide NoLater;
      assert exists i :: 0 <= i < |a.picks| && a.picks[i] == id;
    }
  }

  lemma {:induction false} WaitingPersists(tr: Trace, id: string, until: Time, i: nat, j: nat)
    requires Run(tr) && i <= j < |tr.states| && Waits(tr.states[i], id, until)
    requires forall k :: i <= k < j ==> !(tr.acts[k].Retry? && tr.acts[k].item.id == id)
    ensures Waits(tr.states[j], id, until)
    decreases j
  {
    hide Apply, Enabled, Waits;
    if i < j {
      WaitingPersists(tr, id, until, i, j - 1);
      StepKeepsWaiting(tr.states[j - 1], tr.acts[j - 1], id, until);
    }
  }

  /** A retried item is not claimed again before its delay is over, and a dead one never, unless
      it is retried again. */
  lemma RetryDelaysNextClaim(tr: Trace, id: string, i: nat, j: nat)
    requires Run(tr) && i < j < |tr.acts| && tr.acts[i].Retry? && tr.acts[i].item.id == id && id in tr.states[i].q.jobs
    requires forall k :: i < k < j ==> !(tr.acts[k].Retry? && tr.acts[k].item.id == id)
    requires ClaimsItem(tr.acts[j], id)
    ensures tr.states[j].now >= tr.states[i].now + RetryDelay(tr.acts[i].item.attempt)
    ensures !GivesUp(tr.acts[i].item, tr.acts[i].maxAttempts)
  {
    var until := tr.states[i].now + RetryDelay(tr.acts[i].item.attempt);
    assert Waits(tr.states[i + 1], id, until);
    WaitingPersists(tr, id, until, i + 1, j);
    StepKeepsWaiting(tr.states[j], tr.acts[j], id, until);
    if GivesUp(tr.acts[i].item, tr.acts[i].maxAttempts) {
      var never := tr.states[j].now + 1;
      assert Waits(tr.states[i + 1], id, never);
      WaitingPersists(tr, id, never, i + 1, j);
      StepKeepsWaiting(tr.states[j], tr.acts[j], id, never);
    }
  }

  // ---- The retry budget ----

  /** A Retry made by the worker that holds the current claim, with the run's budget. */
  predicate HolderRetry(s: Sys, a: Action, id: string, maxAttempts: int) {
    a.Retry? && a.item.id == id ==>
      && a.maxAttempts == maxAttempts
      && id in s.q.jobs && s.q.jobs[id].status == Processing && a.item.attempt == s.q.jobs[id].attempt
  }

  /** How many of the first k steps re-leased the item after its lease ran out. */
  function Expiries(tr: Trace, id: string, k: nat): nat
    requires |tr.states| == |tr.acts| + 1 && k <= |tr.acts|
  {
    if k == 0 then 0
    else Expiries(tr, id, k - 1) + Expiry(tr.states[k - 1], tr.acts[k - 1], id)
  }

  function Expiry(s: Sys, a: Action, id: string): nat {
    if ClaimsItem(a, id) && id in s.q.jobs && s.q.jobs[id].status == Processing then 1 else 0
  }

  predicate WithinBudget(j: Job, expiries: nat, maxAttempts: int) {
    j.attempt <= EffectiveBudget(maxAttempts) + expiries
                 - (if j.status == Pending || j.status == Retrying then 1 else 0)
  }

  lemma BudgetStep(s: Sys, a: Action, id: string, expiries: nat, maxAttempts: int)
    requires Enabled(s, a) && id in s.q.jobs && HolderRetry(s, a, id, maxAttempts)
    requires WithinBudget(s.q.jobs[id], expiries, maxAttempts)
    ensures id in Apply(s, a).q.jobs
    ensures WithinBudget(Apply(s, a).q.jobs[id], expiries + Expiry(s, a, id), maxAttempts)
  {
  }

  /** From its enqueueing on, an item whose retries come from its current holder is claimed at
      most maxAttempts times plus once for every lease that expired; `attempt` is that count. */
  lemma {:induction false} ClaimsWithinBudget(tr: Trace, id: string, maxAttempts: int, k: nat)
    requires Run(tr) && k <= |tr.acts| && id in tr.states[0].q.jobs
    requires tr.states[0].q.jobs[id].status == Pending && tr.states[0].q.jobs[id].attempt == 0
    requires forall i :: 0 <= i < |tr.acts| ==> HolderRetry(tr.states[i], tr.acts[i], id, maxAttempts)
    ensures id in tr.states[k].q.jobs
    ensures tr.states[k].q.jobs[id].attempt == ClaimCount(tr, id, k)
    ensures WithinBudget(tr.states[k].q.jobs[id], Expiries(tr, id, k), maxAttempts)
  {
    hide Apply, Enabled, HolderRetry, Expiry, WithinBudget;
    if k > 0 {
      ClaimsWithinBudget(tr, id, maxAttempts, k - 1);
      AttemptStep(tr.states[k - 1], tr.acts[k - 1], id);
      BudgetStep(tr.states[k - 1], tr.acts[k - 1], id, Expiries(tr, id, k - 1), maxAttempts);
    } else {
      StartsWithinBudget(tr.states[0].q.jobs[id], maxAttempts);
    }
  }

  lemma StartsWithinBudget(j: Job, maxAttempts: int)
    requires j.attempt == 0
    ensures WithinBudget(j, 0, maxAttempts)
  {
  }

  function ClaimCount(tr: Trace, id: string, k: nat): nat
    requires k <= |tr.acts|
  {
    if k == 0 then 0 else ClaimCount(tr, id, k - 1) + (if ClaimsItem(tr.acts[k - 1], id) then 1 else 0)
  }
}
