/**
  The leased ingest queue: `job_ingest_queue` with its unique indexes on the idempotency key and
  the variant, and the append-only ledger `job_ingest_events`. Times are in nanoseconds.
 */
module IngestQueue {
  import opened Prelude
  import opened FrontierBackoff

  type Time = int

  datatype Status = Pending | Retrying | Processing | Processed | Dead

  datatype Job = Job(
    variantId: string, sourceId: string, crawlRunId: string, key: string,
    status: Status, attempt: nat, availableAt: Time,
    claimedAt: Option<Time>, leaseExpiresAt: Option<Time>, claimedBy: string,
    lastError: string, createdAt: Time)

  datatype EventKind = WasEnqueued | WasRetried | WasProcessed | WasDead | WasRejected

  /** `canonicalId` is the detail a processed event records; empty for the other kinds. */
  datatype Event = Event(ingestId: string, kind: EventKind, attempt: nat, canonicalId: string)

  datatype Queue = Queue(
    jobs: map<string, Job>, keys: map<string, string>, variants: set<string>, ledger: seq<Event>)

  const EMPTY_QUEUE := Queue(map[], map[], {}, [])

  /** A claimed job as its worker holds it. */
  datatype Item = Item(id: string, attempt: nat)

  // ---- Enqueue ----

  datatype Request = Request(variantId: string, sourceId: string, crawlRunId: string, key: string, validPayload: bool)

  datatype EnqueueError = InvalidRequest | CapacityExhausted | DuplicateRow

  predicate Active(j: Job) {
    j.status == Pending || j.status == Retrying || j.status == Processing
  }

  function ActiveJobs(q: Queue): set<string> {
    set id | id in q.jobs && Active(q.jobs[id])
  }

  function FreshJob(r: Request, now: Time): Job {
    Job(r.variantId, r.sourceId, r.crawlRunId, r.key, Pending, 0, now, None, None, "", "", now)
  }

  /** Enqueue with generated id `id`; `maxPending` at or below zero means no ceiling. */
  function EnqueueStep(q: Queue, id: string, r: Request, maxPending: int, now: Time): Result<Queue, EnqueueError> {
    if r.variantId == "" || r.sourceId == "" || r.key == "" || !r.validPayload then Err(InvalidRequest)
    else if r.key in q.keys then Ok(q)
    else if maxPending > 0 && |ActiveJobs(q)| >= maxPending then Err(CapacityExhausted)
    else if id in q.jobs || r.variantId in q.variants then Err(DuplicateRow)
    else Ok(Queue(q.jobs[id := FreshJob(r, now)], q.keys[r.key := id], q.variants + {r.variantId},
                  q.ledger + [Event(id, WasEnqueued, 0, "")]))
  }

  function AfterEnqueue(q: Queue, id: string, r: Request, maxPending: int, now: Time): Queue {
    var res := EnqueueStep(q, id, r, maxPending, now);
    if res.Ok? then res.value else q
  }

  // ---- Claim ----

  function EffectiveLimit(limit: int): int { if limit <= 0 then 100 else limit }

  function EffectiveLease(lease: int): int { if lease <= 0 then 120 * SECOND else lease }

  predicate Claimable(j: Job, now: Time) {
    || ((j.status == Pending || j.status == Retrying) && j.availableAt <= now)
    || (j.status == Processing && j.leaseExpiresAt.Some? && j.leaseExpiresAt.value < now)
  }

  predicate NoLater(a: Job, b: Job) {
    a.availableAt < b.availableAt || (a.availableAt == b.availableAt && a.createdAt <= b.createdAt)
  }

  /** The rows a Claim may lease: the first `limit` claimable ones by availability, then age. */
  ghost predicate ValidClaim(q: Queue, limit: int, now: Time, picks: seq<string>) {
    && |picks| <= EffectiveLimit(limit)
    && (forall i :: 0 <= i < |picks| ==> picks[i] in q.jobs && Claimable(q.jobs[picks[i]], now))
    && (forall i, j :: 0 <= i < j < |picks| ==> picks[i] != picks[j] && NoLater(q.jobs[picks[i]], q.jobs[picks[j]]))
    && (forall id :: id in q.jobs && Claimable(q.jobs[id], now) && id !in picks ==>
          |picks| == EffectiveLimit(limit) && forall i :: 0 <= i < |picks| ==> NoLater(q.jobs[picks[i]], q.jobs[id]))
  }

  function Leased(j: Job, owner: string, lease: int, now: Time): Job {
    j.(status := Processing, attempt := j.attempt + 1, claimedAt := Some(now),
       leaseExpiresAt := Some(now + EffectiveLease(lease)), claimedBy := owner)
  }

  function ClaimStep(q: Queue, picks: seq<string>, owner: string, lease: int, now: Time): Queue {
    q.(jobs := map id | id in q.jobs :: if id in picks then Leased(q.jobs[id], owner, lease, now) else q.jobs[id])
  }

  // ---- Acknowledge and retry ----

  /** The acknowledgement half of Complete: it needs the row to be processing. */
  function AckStep(q: Queue, item: Item, canonicalId: string): Option<Queue> {
    if item.id !in q.jobs || q.jobs[item.id].status != Processing then None
    else Some(q.(jobs := q.jobs[item.id := q.jobs[item.id].(status := Processed, leaseExpiresAt := None,
                                                            claimedBy := "", lastError := "")],
                 ledger := q.ledger + [Event(item.id, WasProcessed, item.attempt, canonicalId)]))
  }

  function AfterAck(q: Queue, item: Item, canonicalId: string): Queue {
    var res := AckStep(q, item, canonicalId);
    if res.Some? then res.value else q
  }

  function EffectiveBudget(maxAttempts: int): int { if maxAttempts <= 0 then 10 else maxAttempts }

  predicate GivesUp(item: Item, maxAttempts: int) { item.attempt >= EffectiveBudget(maxAttempts) }

  function Truncated(message: string): string { if |message| > 2000 then message[..2000] else message }

  function RetryDelay(attempt: nat): int { Min(Pow2(attempt), 900) * SECOND }

  /** The delay doubles with every attempt up to a quarter of an hour. */
  lemma RetryDelayGrows(a: nat, b: nat)
    requires a <= b
    ensures SECOND <= RetryDelay(a) <= RetryDelay(b) <= 900 * SECOND
    ensures RetryDelay(a + 1) == Min(2 * RetryDelay(a), 900 * SECOND)
  {
    Pow2Monotone(a, b);
  }

  /** Retry updates by id alone; it looks neither at the row's status nor at its holder. */
  function RetryStep(q: Queue, item: Item, message: string, maxAttempts: int, now: Time): Queue {
    var dead := GivesUp(item, maxAttempts);
    var event := Event(item.id, if dead then WasDead else WasRetried, item.attempt, "");
    if item.id !in q.jobs then q.(ledger := q.ledger + [event])
    else q.(jobs := q.jobs[item.id := q.jobs[item.id].(
                      status := if dead then Dead else Retrying,
                      availableAt := now + RetryDelay(item.attempt),
                      leaseExpiresAt := None, claimedBy := "", lastError := Truncated(message))],
            ledger := q.ledger + [event])
  }

  function RejectStep(q: Queue, id: string): Queue {
    q.(ledger := q.ledger + [Event(id, WasRejected, 0, "")])
  }

  // ---- Ledger and index agreement ----

  function Count(ledger: seq<Event>, id: string, kind: EventKind): nat {
    if ledger == [] then 0
    else Count(ledger[..|ledger| - 1], id, kind)
         + (if ledger[|ledger| - 1].ingestId == id && ledger[|ledger| - 1].kind == kind then 1 else 0)
  }

  lemma CountsAfter(ledger: seq<Event>, e: Event, id: string)
    ensures forall kind :: Count(ledger + [e], id, kind) ==
              Count(ledger, id, kind) + (if e.ingestId == id && e.kind == kind then 1 else 0)
  {
    assert (ledger + [e])[..|ledger|] == ledger;
  }

  predicate LedgerAgrees(q: Queue, id: string)
    requires id in q.jobs
  {
    && Count(q.ledger, id, WasEnqueued) == 1
    && Count(q.ledger, id, WasProcessed) == (if q.jobs[id].status == Processed then 1 else 0)
    && Count(q.ledger, id, WasDead) == (if q.jobs[id].status == Dead then 1 else 0)
  }

  ghost predicate LedgerExact(q: Queue) {
    forall id :: id in q.jobs ==> LedgerAgrees(q, id)
  }

  /** One row per idempotency key, and the index finds it; one row per variant. */
  ghost predicate KeysExact(q: Queue) {
    && (forall id :: id in q.jobs ==> q.jobs[id].variantId in q.variants)
    && (forall a, b :: a in q.jobs && b in q.jobs && q.jobs[a].variantId == q.jobs[b].variantId ==> a == b)
    && (forall k :: k in q.keys ==> q.keys[k] in q.jobs && q.jobs[q.keys[k]].key == k)
    && (forall id :: id in q.jobs ==> q.jobs[id].key in q.keys && q.keys[q.jobs[id].key] == id)
  }

  predicate FreshId(q: Queue, id: string) {
    id !in q.jobs && forall i :: 0 <= i < |q.ledger| ==> q.ledger[i].ingestId != id
  }

  lemma {:induction false} UnusedCountsZero(ledger: seq<Event>, id: string)
    requires forall i :: 0 <= i < |ledger| ==> ledger[i].ingestId != id
    ensures forall kind :: Count(ledger, id, kind) == 0
  {
    if ledger != [] { UnusedCountsZero(ledger[..|ledger| - 1], id); }
  }

  lemma EnqueueKeepsLedger(q: Queue, id: string, r: Request, maxPending: int, now: Time)
    requires LedgerExact(q) && FreshId(q, id)
    ensures LedgerExact(AfterEnqueue(q, id, r, maxPending, now))
  {
    var q' := AfterEnqueue(q, id, r, maxPending, now);
    if q' != q {
      var e := Event(id, WasEnqueued, 0, "");
      forall x | x in q'.jobs ensures LedgerAgrees(q', x) {
        if x == id {
          UnusedCountsZero(q.ledger, x);
        } else {
          assert LedgerAgrees(q, x);
        }
        CountsAfter(q.ledger, e, x);
      }
    }
  }

  lemma AckKeepsLedger(q: Queue, item: Item, canonicalId: string)
    requires LedgerExact(q)
    ensures LedgerExact(AfterAck(q, item, canonicalId))
  {
    var q' := AfterAck(q, item, canonicalId);
    if AckStep(q, item, canonicalId).Some? {
      var e := Event(item.id, WasProcessed, item.attempt, canonicalId);
      forall x | x in q'.jobs ensures LedgerAgrees(q', x) {
        assert LedgerAgrees(q, x);
        CountsAfter(q.ledger, e, x);
      }
    }
  }

  /** Retry keeps the ledger in step with the rows exactly when the row has not already been
      processed or declared dead. */
  lemma RetryKeepsLedgerIff(q: Queue, item: Item, message: string, maxAttempts: int, now: Time)
    requires LedgerExact(q)
    ensures LedgerExact(RetryStep(q, item, message, maxAttempts, now))
            <==> (item.id in q.jobs ==> Active(q.jobs[item.id]))
  {
    hide Count, RetryDelay, Truncated;
    var q' := RetryStep(q, item, message, maxAttempts, now);
    var e := q'.ledger[|q.ledger|];
    forall x | x in q.jobs
      ensures LedgerAgrees(q', x) <==> x != item.id || Active(q.jobs[x])
    {
      assert LedgerAgrees(q, x);
      CountsAfter(q.ledger, e, x);
    }
  }

  lemma AuditKeepsLedger(q: Queue, id: string)
    requires LedgerExact(q)
    ensures LedgerExact(RejectStep(q, id))
  {
    var e := Event(id, WasRejected, 0, "");
    forall x | x in q.jobs ensures LedgerAgrees(RejectStep(q, id), x) {
      assert LedgerAgrees(q, x);
      CountsAfter(q.ledger, e, x);
    }
  }

  lemma ClaimKeepsLedger(q: Queue, limit: int, picks: seq<string>, owner: string, lease: int, now: Time)
    requires LedgerExact(q) && ValidClaim(q, limit, now, picks)
    ensures LedgerExact(ClaimStep(q, picks, owner, lease, now))
  {
    var q' := ClaimStep(q, picks, owner, lease, now);
    forall x | x in q'.jobs ensures LedgerAgrees(q', x) {
      assert LedgerAgrees(q, x);
    }
  }

  // ---- Capacity ----

  lemma EnqueueKeepsCapacity(q: Queue, id: string, r: Request, m: int, now: Time)
    requires m > 0 && |ActiveJobs(q)| <= m
    ensures |ActiveJobs(AfterEnqueue(q, id, r, m, now))| <= m
  {
    var q' := AfterEnqueue(q, id, r, m, now);
    if q' != q {
      assert ActiveJobs(q') == ActiveJobs(q) + {id};
    }
  }

  lemma ClaimKeepsActive(q: Queue, limit: int, picks: seq<string>, owner: string, lease: int, now: Time)
    requires ValidClaim(q, limit, now, picks)
    ensures ActiveJobs(ClaimStep(q, picks, owner, lease, now)) == ActiveJobs(q)
  {
  }

  lemma AckShrinksActive(q: Queue, item: Item, canonicalId: string)
    ensures |ActiveJobs(AfterAck(q, item, canonicalId))| <= |ActiveJobs(q)|
  {
    SubsetSize(ActiveJobs(AfterAck(q, item, canonicalId)), ActiveJobs(q));
  }

  /** Retry adds load exactly when it revives a finished row: a late Retry of a processed or dead
      item that still has budget. */
  lemma RetryAddsLoadIff(q: Queue, item: Item, message: string, maxAttempts: int, now: Time)
    ensures |ActiveJobs(RetryStep(q, item, message, maxAttempts, now))| > |ActiveJobs(q)|
            <==> item.id in q.jobs && !Active(q.jobs[item.id]) && !GivesUp(item, maxAttempts)
  {
    var q' := RetryStep(q, item, message, maxAttempts, now);
    if item.id in q.jobs && !Active(q.jobs[item.id]) && !GivesUp(item, maxAttempts) {
      assert ActiveJobs(q') == ActiveJobs(q) + {item.id};
    } else {
      SubsetSize(ActiveJobs(q'), ActiveJobs(q));
    }
  }
}
