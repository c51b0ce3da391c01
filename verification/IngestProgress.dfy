/**
  When an item of the ingest queue can be claimed: at once when new, after its delay when retried,
  after its lease when abandoned, never when finished. Stated on the columns of the queue.
 */
module IngestProgress {
  import opened Prelude
  import opened FrontierBackoff
  import opened IngestQueue
  import opened IngestRuns

  /** Free for a worker, column by column. */
  predicate Free(q: Queue, id: string, now: Time) {
    && id in q.jobs
    && (|| (q.jobs[id].status in {Pending, Retrying} && q.jobs[id].availableAt <= now)
        || (&& q.jobs[id].status == Processing
            && q.jobs[id].leaseExpiresAt.Some? && q.jobs[id].leaseExpiresAt.value < now))
  }

  /** A claim takes only free items, and leaves a free one only for as many that became available no
      later as it may take. */
  lemma ClaimServesTheEarliest(q: Queue, limit: int, now: Time, picks: seq<string>, id: string)
    requires ValidClaim(q, limit, now, picks)
    ensures id in picks ==> Free(q, id, now)
    ensures Free(q, id, now) && id !in picks ==>
              && |picks| == (if limit <= 0 then 100 else limit)
              && forall i :: 0 <= i < |picks| ==>
                   && picks[i] in q.jobs && q.jobs[picks[i]].availableAt <= q.jobs[id].availableAt
                   && (q.jobs[picks[i]].availableAt == q.jobs[id].availableAt ==>
                         q.jobs[picks[i]].createdAt <= q.jobs[id].createdAt)
  {
  }

  /** An enqueue succeeds exactly for a complete request whose key is known, or that fits under the
      ceiling with an unused id and variant. A new item is free at once, with no attempt spent. */
  lemma NewJobIsFreeAtOnce(q: Queue, id: string, r: Request, maxPending: int, now: Time)
    ensures EnqueueStep(q, id, r, maxPending, now).Ok? <==>
            && r.variantId != "" && r.sourceId != "" && r.key != "" && r.validPayload
            && (|| r.key in q.keys
                || (&& (maxPending <= 0 || |ActiveJobs(q)| < maxPending)
                    && id !in q.jobs && r.variantId !in q.variants))
    ensures EnqueueStep(q, id, r, maxPending, now).Ok? ==>
              var q' := EnqueueStep(q, id, r, maxPending, now).value;
              if r.key in q.keys then q' == q
              else
                && Free(q', id, now) && q'.jobs[id].attempt == 0 && q'.jobs[id].key == r.key
                && q'.jobs[id].variantId == r.variantId && q'.jobs[id].sourceId == r.sourceId
                && q'.jobs[id].crawlRunId == r.crawlRunId
                && forall other :: other in q.jobs ==> other in q'.jobs && q'.jobs[other] == q.jobs[other]
  {
  }

  /** An acknowledgement succeeds exactly on a processing item, which is then processed and never
      free; a refused one changes nothing. */
  lemma AckFinishes(q: Queue, item: Item, canonicalId: string, now: Time)
    ensures AckStep(q, item, canonicalId).Some? <==> item.id in q.jobs && q.jobs[item.id].status == Processing
    ensures AckStep(q, item, canonicalId).None? ==> AfterAck(q, item, canonicalId) == q
    ensures AckStep(q, item, canonicalId).Some? ==>
              var q' := AfterAck(q, item, canonicalId);
              && item.id in q'.jobs && q'.jobs[item.id].status == Processed && !Free(q', item.id, now)
              && q'.jobs[item.id].claimedBy == "" && q'.jobs[item.id].attempt == q.jobs[item.id].attempt
              && forall other :: other in q.jobs && other != item.id ==>
                   other in q'.jobs && q'.jobs[other] == q.jobs[other]
  {
  }

  predicate Touches(a: Action, id: string) {
    match a
    case Claim(_, _, _, picks) => id in picks
    case Ack(item, _) => item.id == id
    case Retry(item, _, _) => item.id == id
    case _ => false
  }

  lemma StepSpares(s: Sys, a: Action, id: string)
    requires id in s.q.jobs && Enabled(s, a) && !Touches(a, id)
    ensures id in Apply(s, a).q.jobs && Apply(s, a).q.jobs[id] == s.q.jobs[id]
  {
  }

  lemma {:induction false} UntouchedStays(tr: Trace, id: string, i: nat, j: nat)
    requires Run(tr) && i <= j < |tr.states| && id in tr.states[i].q.jobs
    requires forall k :: i <= k < j ==> !Touches(tr.acts[k], id)
    ensures id in tr.states[j].q.jobs && tr.states[j].q.jobs[id] == tr.states[i].q.jobs[id]
    decreases j
  {
    hide Apply, Enabled, Touches;
    if i < j {
      UntouchedStays(tr, id, i, j - 1);
      StepSpares(tr.states[j - 1], tr.acts[j - 1], id);
    }
  }

  /** An item whose worker died is free again exactly once its lease is over. */
  lemma AbandonedItemIsFreeAfterLease(tr: Trace, id: string, i: nat, j: nat)
    requires Run(tr) && i < j < |tr.states| && tr.acts[i].Claim? && id in tr.acts[i].picks
    requires forall k :: i < k < j ==> !Touches(tr.acts[k], id)
    ensures Free(tr.states[j].q, id, tr.states[j].now) <==>
            tr.states[j].now > tr.states[i].now + (if tr.acts[i].lease <= 0 then 120 * SECOND else tr.acts[i].lease)
    ensures && id in tr.states[j].q.jobs && tr.states[j].q.jobs[id].claimedBy == tr.acts[i].owner
            && tr.states[j].q.jobs[id].claimedAt == Some(tr.states[i].now)
  {
    assert Enabled(tr.states[i], tr.acts[i]) && id in tr.states[i].q.jobs;
    UntouchedStays(tr, id, i + 1, j);
  }

  /** An item retried below its budget is free again exactly once its delay is over; one retried at
      the budget is never free. A budget at or below zero counts as ten. */
  lemma RetriedItemIsFreeAfterDelay(tr: Trace, id: string, i: nat, j: nat)
    requires Run(tr) && i < j < |tr.states| && id in tr.states[i].q.jobs
    requires tr.acts[i].Retry? && tr.acts[i].item.id == id
    requires forall k :: i < k < j ==> !Touches(tr.acts[k], id)
    ensures var budget := if tr.acts[i].maxAttempts <= 0 then 10 else tr.acts[i].maxAttempts;
            Free(tr.states[j].q, id, tr.states[j].now) <==>
              && tr.acts[i].item.attempt < budget
              && tr.states[j].now >= tr.states[i].now + Min(Pow2(tr.acts[i].item.attempt), 900) * SECOND
  {
    UntouchedStays(tr, id, i + 1, j);
  }
}
