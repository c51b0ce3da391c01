/** The ingest store as the source runs it, over one database or two. */
module IngestStore {
  import opened Prelude
  import opened FrontierBackoff
  import opened IngestQueue
  import opened IngestPipeline
  import opened ProductStore

  class Store {
    var jobs: map<string, Job>
    var keys: map<string, string>
    var variants: set<string>
    var ledger: seq<Event>
    var identities: map<string, string>
    var opps: map<string, Opportunity>
    var lineage: map<LineageKey, Lineage>
    const maxPending: int
    const dualDb: bool

    ghost function Q(): Queue
      reads this
    {
      Queue(jobs, keys, variants, ledger)
    }

    ghost function P(): Product
      reads this
    {
      Product(identities, opps, lineage)
    }

    constructor (maxPending: int, dualDb: bool)
      ensures Q() == EMPTY_QUEUE && P() == EMPTY_PRODUCT
      ensures this.maxPending == maxPending && this.dualDb == dualDb
    {
      jobs, keys, variants, ledger := map[], map[], {}, [];
      identities, opps, lineage := map[], map[], map[];
      this.maxPending, this.dualDb := maxPending, dualDb;
    }

    method Enqueue(id: string, r: Request, now: IngestQueue.Time) returns (err: Option<EnqueueError>)
      modifies this
      ensures err.None? <==> EnqueueStep(old(Q()), id, r, maxPending, now).Ok?
      ensures err.Some? ==> EnqueueStep(old(Q()), id, r, maxPending, now) == Err(err.value)
      ensures Q() == AfterEnqueue(old(Q()), id, r, maxPending, now) && P() == old(P())
    {
      if r.variantId == "" || r.sourceId == "" || r.key == "" || !r.validPayload { return Some(InvalidRequest); }
      if maxPending > 0 {
        if r.key in keys { return None; }
        var pending := CountActive();
        if pending >= maxPending { return Some(CapacityExhausted); }
      }
      if r.key in keys { return None; }
      if id in jobs || r.variantId in variants { return Some(DuplicateRow); }
      jobs := jobs[id := FreshJob(r, now)];
      keys := keys[r.key := id];
      variants := variants + {r.variantId};
      ledger := ledger + [Event(id, WasEnqueued, 0, "")];
      return None;
    }

    method CountActive() returns (n: nat)
      ensures n == |ActiveJobs(Q())|
    {
      n := 0;
      var todo := jobs.Keys;
      ghost var counted: set<string> := {};
      while todo != {}
        invariant todo <= jobs.Keys && n == |counted|
        invariant counted == set id | id in jobs && id !in todo && Active(jobs[id])
        decreases |todo|
      {
        var id :| id in todo;
        if Active(jobs[id]) {
          n := n + 1;
          counted := counted + {id};
        }
        todo := todo - {id};
      }
      assert counted == ActiveJobs(Q());
    }

    method Earliest(left: set<string>) returns (best: string)
      requires left != {} && left <= jobs.Keys
      ensures best in left && forall id :: id in left ==> NoLater(jobs[best], jobs[id])
    {
      best :| best in left;
      var todo := left;
      while todo != {}
        invariant todo <= left && best in left
        invariant forall id :: id in left && id !in todo ==> NoLater(jobs[best], jobs[id])
        decreases |todo|
      {
        var id :| id in todo;
        if !NoLater(jobs[best], jobs[id]) { best := id; }
        todo := todo - {id};
      }
    }

    /** The claim query: the first `limit` claimable rows by availability, then age. */
    method Pick(limit: int, now: IngestQueue.Time) returns (picks: seq<string>)
      ensures ValidClaim(Q(), limit, now, picks)
    {
      hide Claimable, NoLater;
      picks := [];
      var left := set id | id in jobs && Claimable(jobs[id], now);
      while |picks| < EffectiveLimit(limit) && left != {}
        invariant |picks| <= EffectiveLimit(limit)
        invariant forall id :: id in left ==> id in jobs && Claimable(jobs[id], now) && id !in picks
        invariant forall id :: id in jobs && Claimable(jobs[id], now) ==> id in left || id in picks
        invariant forall i :: 0 <= i < |picks| ==> picks[i] in jobs && Claimable(jobs[picks[i]], now)
        invariant forall i, j :: 0 <= i < j < |picks| ==>
                    picks[i] != picks[j] && NoLater(jobs[picks[i]], jobs[picks[j]])
        invariant forall i, id :: 0 <= i < |picks| && id in left ==> NoLater(jobs[picks[i]], jobs[id])
        decreases |left|
      {
        var id := Earliest(left);
        picks := picks + [id];
        left := left - {id};
      }
    }

    method Claim(owner: string, limit: int, lease: int, now: IngestQueue.Time)
      returns (items: seq<Item>, ghost picks: seq<string>)
      modifies this
      ensures ValidClaim(old(Q()), limit, now, picks)
      ensures Q() == ClaimStep(old(Q()), picks, owner, lease, now) && P() == old(P())
      ensures |items| == |picks| && forall i :: 0 <= i < |items| ==>
                picks[i] in old(jobs) && items[i] == Item(picks[i], old(jobs)[picks[i]].attempt + 1)
    {
      var chosen := Pick(limit, now);
      picks := chosen;
      jobs := map id | id in jobs :: if id in chosen then Leased(jobs[id], owner, lease, now) else jobs[id];
      items := seq(|chosen|, i requires 0 <= i < |chosen| && chosen[i] in jobs reads this =>
                     Item(chosen[i], jobs[chosen[i]].attempt));
    }

    /** The product transaction of Complete. */
    method ProductWrite(c: Canonical) returns (id: Result<string, WriteError>)
      modifies this`identities, this`opps, this`lineage
      ensures id == Resolve(old(P()), c) && P() == WriteStep(old(P()), c)
    {
      if c.candidateId == "" || c.hardKey == "" || c.kind == "" || c.title == "" || c.applyUrl == "" {
        return Err(MissingFields);
      }
      if Blank(c.applyUrl) { return Err(BlankApplyUrl); }
      var cid := c.candidateId;
      if c.hardKey in identities {
        cid := identities[c.hardKey];
      } else if cid in identities.Values {
        return Err(CanonicalIdTaken);
      }
      identities := identities[c.hardKey := cid];
      var merged := if cid in opps then MergeOpportunity(c, opps[cid]) else NewOpportunity(c);
      var k := KeyOf(cid, c);
      if k in lineage {
        lineage := lineage[k := MergeLineage(c, lineage[k])];
      } else {
        lineage := lineage[k := NewLineage(c)];
      }
      opps := opps[cid := WithVisibility(merged, HasActive(lineage, cid))];
      return Ok(cid);
    }

    /** The acknowledgement transaction of Complete. */
    method AckCrawl(item: Item, canonicalId: string) returns (ok: bool)
      modifies this`jobs, this`ledger
      ensures ok <==> AckStep(old(Q()), item, canonicalId).Some?
      ensures Q() == AfterAck(old(Q()), item, canonicalId)
    {
      if item.id !in jobs || jobs[item.id].status != Processing { return false; }
      jobs := jobs[item.id := jobs[item.id].(status := Processed, leaseExpiresAt := None,
                                             claimedBy := "", lastError := "")];
      ledger := ledger + [Event(item.id, WasProcessed, item.attempt, canonicalId)];
      return true;
    }

    /** `dies` says whether the process is lost between the two commits. */
    method Complete(item: Item, c: Canonical, dies: bool) returns (id: Result<string, WriteError>, acked: bool)
      modifies this
      ensures (Q(), P()) == if dualDb then CompleteInTwo(old(Q()), old(P()), item, c, dies)
                            else CompleteInOne(old(Q()), old(P()), item, c)
      ensures id == Resolve(old(P()), c)
      ensures acked ==> id.Ok? && AckStep(old(Q()), item, id.value).Some?
    {
      acked := false;
      if dualDb {
        id := ProductWrite(c);
        if id.Ok? && !dies { acked := AckCrawl(item, id.value); }
      } else {
        var savedIds, savedOpps, savedLineage := identities, opps, lineage;
        id := ProductWrite(c);
        if id.Ok? {
          acked := AckCrawl(item, id.value);
          if !acked { identities, opps, lineage := savedIds, savedOpps, savedLineage; }
        }
      }
    }

    method Retry(item: Item, message: string, maxAttempts: int, now: IngestQueue.Time)
      modifies this
      ensures Q() == RetryStep(old(Q()), item, message, maxAttempts, now) && P() == old(P())
      ensures var dead := item.attempt >= if maxAttempts <= 0 then 10 else maxAttempts;
              ledger == old(ledger) + [Event(item.id, if dead then WasDead else WasRetried, item.attempt, "")]
      ensures item.id in jobs ==>
                && jobs[item.id].lastError <= message && |jobs[item.id].lastError| == Min(|message|, 2000)
                && jobs[item.id].claimedBy == "" && jobs[item.id].leaseExpiresAt == None
      ensures forall id :: id in old(jobs) && id != item.id ==> id in jobs && jobs[id] == old(jobs)[id]
    {
      var budget := if maxAttempts <= 0 then 10 else maxAttempts;
      var status, kind := Retrying, WasRetried;
      if item.attempt >= budget { status, kind := Dead, WasDead; }
      var delay := RetryDelay(item.attempt);
      if item.id in jobs {
        jobs := jobs[item.id := jobs[item.id].(status := status, availableAt := now + delay,
                                               leaseExpiresAt := None, claimedBy := "",
                                               lastError := Truncated(message))];
      }
      ledger := ledger + [Event(item.id, kind, item.attempt, "")];
    }

    method RecordRejected(id: string)
      modifies this
      ensures Q() == RejectStep(old(Q()), id) && P() == old(P())
      ensures LedgerExact(old(Q())) ==> LedgerExact(Q())
    {
      if LedgerExact(Q()) { AuditKeepsLedger(Q(), id); }
      ledger := ledger + [Event(id, WasRejected, 0, "")];
    }

    method ReconcileSource(source: string, startedAt: ProductStore.Time)
      modifies this
      ensures P() == ReconcileStep(old(P()), source, startedAt) && Q() == old(Q())
      ensures HiddenExact(old(P())) ==> HiddenExact(P())
    {
      ReconcileKeepsHidden(P(), source, startedAt);
      lineage := map k | k in lineage ::
        if k.sourceId == source && lineage[k].lastSeenAt < startedAt
        then Retired(lineage[k], startedAt) else lineage[k];
      opps := HideOrphans(Product(identities, opps, lineage), source, NOT_OBSERVED);
    }

    /** Deactivation writes to the crawl database, so with a separate product store it leaves the
        catalogue as it is. */
    method DeactivateSource(source: string, reason: string)
      modifies this
      ensures P() == (if dualDb then old(P()) else DeactivateStep(old(P()), source, reason)) && Q() == old(Q())
      ensures HiddenExact(old(P())) ==> HiddenExact(P())
      ensures !dualDb ==> forall k :: k in lineage && k.sourceId == source ==> !lineage[k].active
    {
      if dualDb { return; }
      DeactivateKeepsHidden(P(), source, reason);
      lineage := map k | k in lineage ::
        if k.sourceId == source then lineage[k].(active := false) else lineage[k];
      opps := HideOrphans(Product(identities, opps, lineage), source, reason);
    }
  }
}
