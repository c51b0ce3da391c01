/** The frontier as the source runs it: tables updated in place, batches and claims in loops. */
module FrontierStore {
  import opened Prelude
  import opened FrontierBackoff
  import opened FrontierModel

  /** The effect of an Enqueue call on the tables, its results and its first error. */
  datatype Batch = Batch(tables: Tables, results: seq<Enqueued>, firstError: Option<EnqueueError>)

  function EnqueueBatch(t: Tables, urls: seq<Request>, now: Time): Batch {
    if urls == [] then Batch(t, [], None)
    else
      var done := EnqueueBatch(t, urls[..|urls| - 1], now);
      match EnqueueOne(done.tables, urls[|urls| - 1], now)
      case Ok((t', res)) => Batch(t', done.results + [res], done.firstError)
      case Err(e) => done.(firstError := if done.firstError.None? then Some(e) else done.firstError)
  }

  ghost predicate Extends(t: Tables, t': Tables) {
    && (forall id :: id in t.rows ==> id in t'.rows && t'.rows[id].canonical == t.rows[id].canonical
                                      && t'.rows[id].state == t.rows[id].state
                                      && t'.rows[id].attempts == t.rows[id].attempts
                                      && t'.rows[id].priority >= t.rows[id].priority)
    && (forall h :: h in t.hosts ==> h in t'.hosts && t'.hosts[h] == t.hosts[h])
  }

  lemma EnqueueOneExtends(t: Tables, u: Request, now: Time)
    ensures Extends(t, AfterEnqueueOne(t, u, now))
  {
  }

  /** A batch keeps the index exact and never resets or loses a row. */
  lemma {:induction false} EnqueueBatchKeeps(t: Tables, urls: seq<Request>, now: Time)
    requires IndexExact(t) && HostsKnown(t)
    ensures var t' := EnqueueBatch(t, urls, now).tables; IndexExact(t') && HostsKnown(t') && Extends(t, t')
  {
    if urls != [] {
      var init, u := urls[..|urls| - 1], urls[|urls| - 1];
      EnqueueBatchKeeps(t, init, now);
      var mid := EnqueueBatch(t, init, now).tables;
      EnqueueKeepsTables(mid, u, now);
      EnqueueOneExtends(mid, u, now);
      assert EnqueueBatch(t, urls, now).tables == AfterEnqueueOne(mid, u, now);
    }
  }

  ghost predicate Answers(t: Tables, results: seq<Enqueued>, urls: seq<Request>) {
    && |results| == |urls|
    && forall i :: 0 <= i < |urls| ==>
         results[i].urlId in t.rows && t.rows[results[i].urlId].canonical == urls[i].canonical
  }

  lemma AnswersOneMore(t: Tables, results: seq<Enqueued>, urls: seq<Request>, u: Request, now: Time)
    requires IndexExact(t) && Answers(t, results, urls) && EnqueueOne(t, u, now).Ok?
    ensures Answers(AfterEnqueueOne(t, u, now), results + [EnqueueOne(t, u, now).value.1], urls + [u])
  {
    hide EnqueueOne, IndexExact;
    EnqueueOneExtends(t, u, now);
    EnqueueOneAnswers(t, u, now);
  }

  lemma EnqueueOneAnswers(t: Tables, u: Request, now: Time)
    requires IndexExact(t) && EnqueueOne(t, u, now).Ok?
    ensures var (t', res) := EnqueueOne(t, u, now).value;
            t' == AfterEnqueueOne(t, u, now) && res.urlId in t'.rows && t'.rows[res.urlId].canonical == u.canonical
  {
  }

  /** It answers every URL with the id of the row that now holds it, unless it reports an error. */
  lemma {:induction false} EnqueueBatchAnswers(t: Tables, urls: seq<Request>, now: Time)
    requires IndexExact(t) && HostsKnown(t)
    ensures var b := EnqueueBatch(t, urls, now);
            && |b.results| <= |urls|
            && (b.firstError.None? <==> |b.results| == |urls|)
            && (b.firstError.None? ==> Answers(b.tables, b.results, urls))
  {
    hide EnqueueOne, IndexExact, HostsKnown, Answers;
    if urls == [] {
      AnswersNothing(t);
    } else {
      var init, u := urls[..|urls| - 1], urls[|urls| - 1];
      EnqueueBatchAnswers(t, init, now);
      EnqueueBatchKeeps(t, init, now);
      var done := EnqueueBatch(t, init, now);
      if done.firstError.None? && EnqueueOne(done.tables, u, now).Ok? {
        AnswersOneMore(done.tables, done.results, init, u, now);
        assert init + [u] == urls;
      }
    }
  }

  lemma AnswersNothing(t: Tables)
    ensures Answers(t, [], [])
  {
  }

  /** The error a batch reports is the one of the first URL it could not take. */
  lemma {:induction false} FirstErrorIsFirst(t: Tables, urls: seq<Request>, now: Time) returns (i: nat)
    requires EnqueueBatch(t, urls, now).firstError.Some?
    ensures i < |urls|
    ensures EnqueueOne(EnqueueBatch(t, urls[..i], now).tables, urls[i], now)
            == Err(EnqueueBatch(t, urls, now).firstError.value)
    ensures EnqueueBatch(t, urls[..i], now).firstError.None?
  {
    hide EnqueueOne;
    var init := urls[..|urls| - 1];
    if EnqueueBatch(t, init, now).firstError.Some? {
      i := FirstErrorIsFirst(t, init, now);
      assert urls[..i] == init[..i];
    } else {
      i := |init|;
    }
  }

  /** Claimed longer ago than a lease and never finished. */
  predicate Abandoned(r: Row, now: Time) {
    r.state == InFlight && r.claimedAt.Some? && now - r.claimedAt.value > STALE_LEASE
  }

  class Frontier {
    var rows: map<string, Row>
    var index: map<string, string>
    var hosts: map<string, HostState>
    const policy: Policy

    ghost function Db(): Tables
      reads this
    {
      Tables(rows, index, hosts)
    }

    constructor (policy: Policy)
      ensures Db() == EMPTY_TABLES && this.policy == policy
    {
      rows, index, hosts := map[], map[], map[];
      this.policy := policy;
    }

    method Enqueue(urls: seq<Request>, now: Time) returns (results: seq<Enqueued>, firstError: Option<EnqueueError>)
      modifies this
      ensures Batch(Db(), results, firstError) == EnqueueBatch(old(Db()), urls, now)
    {
      results, firstError := [], None;
      for i := 0 to |urls|
        invariant Batch(Db(), results, firstError) == EnqueueBatch(old(Db()), urls[..i], now)
      {
        var u := urls[i];
        assert urls[..i + 1][..i] == urls[..i];
        if u.canonical == "" || u.host == "" {
          if firstError.None? { firstError := Some(InvalidUrl); }
        } else if u.canonical in index && index[u.canonical] in rows {
          var id := index[u.canonical];
          if u.host !in hosts { hosts := hosts[u.host := NewHost(1, 1)]; }
          if u.priority > rows[id].priority {
            rows := rows[id := rows[id].(priority := u.priority)];
          }
          results := results + [Enqueued(id, false)];
        } else if u.urlId in rows {
          if firstError.None? { firstError := Some(DuplicateUrlId); }
        } else {
          if u.host !in hosts { hosts := hosts[u.host := NewHost(1, 1)]; }
          rows := rows[u.urlId := FreshRow(u, now)];
          index := index[u.canonical := u.urlId];
          results := results + [Enqueued(u.urlId, true)];
        }
      }
      assert urls[..|urls|] == urls;
    }

    /** The query that picks a locked host's row. */
    method PickUrl(h: string, now: Time) returns (best: Option<string>)
      ensures best.None? ==> forall id :: !DueOn(Db(), h, id, now)
      ensures best.Some? ==> BestDue(Db(), h, best.value, now)
    {
      best := None;
      var todo := rows.Keys;
      while todo != {}
        invariant todo <= rows.Keys
        invariant best.None? ==> forall id :: DueOn(Db(), h, id, now) ==> id in todo
        invariant best.Some? ==> DueOn(Db(), h, best.value, now)
        invariant best.Some? ==>
          forall id :: DueOn(Db(), h, id, now) && id !in todo ==> NoWorse(rows[best.value], rows[id])
        decreases |todo|
      {
        var id :| id in todo;
        if rows[id].host == h && Due(rows[id], now) && (best.None? || !NoWorse(rows[best.value], rows[id])) {
          best := Some(id);
        }
        todo := todo - {id};
      }
    }

    /** Every due row of `g`'s best is at least as urgent as any due row of `h`. */
    ghost predicate Outranks(g: string, h: string, now: Time)
      reads this
    {
      forall x, y :: BestDue(Db(), g, x, now) && DueOn(Db(), h, y, now) ==> rows[x].priority >= rows[y].priority
    }

    /** The open hosts with due work, each with its best row. */
    method OpenHosts(now: Time) returns (tops: map<string, string>)
      ensures forall h :: h in tops <==> Eligible(Db(), h, now)
      ensures forall h :: h in tops ==> BestDue(Db(), h, tops[h], now)
    {
      tops := map[];
      var todo := hosts.Keys;
      while todo != {}
        invariant todo <= hosts.Keys
        invariant forall h :: h in tops <==> h !in todo && Eligible(Db(), h, now)
        invariant forall h :: h in tops ==> BestDue(Db(), h, tops[h], now)
        decreases |todo|
      {
        var h :| h in todo;
        var best := PickUrl(h, now);
        if (hosts[h].nextEligibleAt.None? || hosts[h].nextEligibleAt.value <= now)
           && hosts[h].concurrencyNow < hosts[h].concurrencyMax && best.Some? {
          assert DueOn(Db(), h, best.value, now);
          tops := tops[h := best.value];
        }
        todo := todo - {h};
      }
    }

    method MostUrgent(left: set<string>, tops: map<string, string>) returns (h: string)
      requires left != {} && left <= tops.Keys && forall g :: g in tops ==> tops[g] in rows
      ensures h in left && forall g :: g in left ==> rows[tops[g]].priority <= rows[tops[h]].priority
    {
      h :| h in left;
      var todo := left;
      while todo != {}
        invariant todo <= left && h in left
        invariant forall g :: g in left && g !in todo ==> rows[tops[g]].priority <= rows[tops[h]].priority
        decreases |todo|
      {
        var g :| g in todo;
        if rows[tops[g]].priority > rows[tops[h]].priority { h := g; }
        todo := todo - {g};
      }
    }

    /** The first n hosts by the priority of their best row. */
    method RankHosts(n: int, tops: map<string, string>) returns (locked: seq<string>)
      requires forall h :: h in tops ==> tops[h] in rows
      ensures |locked| <= Max(n, 0) && forall i :: 0 <= i < |locked| ==> locked[i] in tops
      ensures forall i, j :: 0 <= i < j < |locked| ==>
                locked[i] != locked[j] && rows[tops[locked[i]]].priority >= rows[tops[locked[j]]].priority
      ensures forall h :: h in tops && h !in locked ==>
                |locked| >= n
                && forall i :: 0 <= i < |locked| ==> rows[tops[locked[i]]].priority >= rows[tops[h]].priority
    {
      locked := [];
      var left := tops.Keys;
      while |locked| < n && left != {}
        invariant |locked| <= Max(n, 0) && left <= tops.Keys
        invariant forall h :: h in tops && h !in left ==> h in locked
        invariant forall i :: 0 <= i < |locked| ==> locked[i] in tops && locked[i] !in left
        invariant forall i, j :: 0 <= i < j < |locked| ==>
                    locked[i] != locked[j] && rows[tops[locked[i]]].priority >= rows[tops[locked[j]]].priority
        invariant forall i, h :: 0 <= i < |locked| && h in left ==>
                    rows[tops[locked[i]]].priority >= rows[tops[h]].priority
        decreases n - |locked|
      {
        var h := MostUrgent(left, tops);
        locked := locked + [h];
        left := left - {h};
      }
    }

    lemma BestOutranks(g: string, x: string, h: string, y: string, now: Time)
      requires BestDue(Db(), g, x, now) && BestDue(Db(), h, y, now) && rows[x].priority >= rows[y].priority
      ensures Outranks(g, h, now)
    {
    }

    /** Phase 1: up to n eligible hosts, most urgent first. */
    method LockHosts(n: int, now: Time) returns (locked: seq<string>)
      ensures |locked| <= Max(n, 0)
      ensures forall i, j :: 0 <= i < j < |locked| ==> locked[i] != locked[j] && Outranks(locked[i], locked[j], now)
      ensures forall i :: 0 <= i < |locked| ==> Eligible(Db(), locked[i], now)
      ensures forall h :: Eligible(Db(), h, now) && h !in locked ==>
                |locked| >= n && forall i :: 0 <= i < |locked| ==> Outranks(locked[i], h, now)
    {
      var tops := OpenHosts(now);
      locked := RankHosts(n, tops);
      forall g, h | g in tops && h in tops && rows[tops[g]].priority >= rows[tops[h]].priority
        ensures Outranks(g, h, now)
      {
        BestOutranks(g, tops[g], h, tops[h], now);
      }
    }

    /** Reclaim of abandoned leases; one SQL statement. */
    method ReclaimStale(now: Time)
      modifies this
      ensures Db() == ReclaimStep(old(Db()), now)
      ensures rows.Keys == old(rows).Keys
      ensures forall id :: id in rows ==>
                rows[id] == if Abandoned(old(rows)[id], now)
                            then old(rows)[id].(state := Pending, claimedBy := "", claimedAt := None)
                            else old(rows)[id]
    {
      hosts := map h | h in hosts ::
        hosts[h].(concurrencyNow := Max(hosts[h].concurrencyNow - |StaleOf(rows, h, now)|, 0));
      rows := map id | id in rows :: if Stale(rows[id], now) then Released(rows[id]) else rows[id];
    }

    /** The claim transaction of Dequeue. */
    method ClaimDue(n: int, worker: string, now: Time) returns (picks: seq<string>)
      modifies this
      ensures ValidPicks(old(Db()), n, now, picks)
      ensures Db() == ClaimStep(old(Db()), SetOf(picks), now, worker)
    {
      hide Eligible, ValidPicks, Outranks, HostOpen;
      var locked := LockHosts(n, now);
      picks := [];
      for k := 0 to |locked|
        modifies {}
        invariant |picks| == k
        invariant forall i :: 0 <= i < k ==> BestDue(Db(), locked[i], picks[i], now)
      {
        var best := PickUrl(locked[k], now);
        EligibleHasWork(locked[k], now);
        picks := picks + [best.value];
      }
      PicksAreValid(n, now, locked, picks);
      StampHosts(picks, now);
      rows := map id | id in rows :: if id in picks then Claimed(rows[id], now, worker) else rows[id];
    }

    lemma EligibleHasWork(h: string, now: Time)
      requires Eligible(Db(), h, now)
      ensures exists id :: DueOn(Db(), h, id, now)
    {
    }

    lemma PicksAreValid(n: int, now: Time, locked: seq<string>, picks: seq<string>)
      requires |picks| == |locked| <= Max(n, 0)
      requires forall i, j :: 0 <= i < j < |locked| ==> locked[i] != locked[j] && Outranks(locked[i], locked[j], now)
      requires forall i :: 0 <= i < |locked| ==>
                 Eligible(Db(), locked[i], now) && BestDue(Db(), locked[i], picks[i], now)
      requires forall h :: Eligible(Db(), h, now) && h !in locked ==>
                 |locked| >= n && forall i :: 0 <= i < |locked| ==> Outranks(locked[i], h, now)
      ensures ValidPicks(Db(), n, now, picks)
    {
      var t := Db();
      forall h, id | HostOpen(t, h, now) && DueOn(t, h, id, now)
        ensures || (exists i :: 0 <= i < |picks| && t.rows[picks[i]].host == h)
                || (|picks| >= n && forall i :: 0 <= i < |picks| ==> t.rows[id].priority <= t.rows[picks[i]].priority)
      {
        if h in locked {
          var i :| 0 <= i < |locked| && locked[i] == h;
          assert t.rows[picks[i]].host == h;
        } else {
          assert Eligible(t, h, now);
        }
      }
    }

    /** Takes a slot on every claimed host and closes it for its window. */
    method StampHosts(picks: seq<string>, now: Time)
      requires forall id :: id in picks ==> id in rows
      modifies this`hosts
      ensures hosts == map h | h in old(hosts) ::
                if h in HostsOf(rows, SetOf(picks)) then SlotTaken(old(hosts)[h], now) else old(hosts)[h]
    {
      var busy := HostsOf(rows, SetOf(picks));
      var todo := busy;
      while todo != {}
        invariant todo <= busy && hosts.Keys == old(hosts).Keys
        invariant forall h :: h in hosts ==>
                    hosts[h] == if h in busy && h !in todo then SlotTaken(old(hosts)[h], now) else old(hosts)[h]
        decreases |todo|
      {
        var h :| h in todo;
        if h in hosts { hosts := hosts[h := SlotTaken(hosts[h], now)]; }
        todo := todo - {h};
      }
    }

    /** Dequeue: reclaim, then claim, in two transactions. */
    method Dequeue(n: int, worker: string, reclaimAt: Time, claimAt: Time) returns (picks: seq<string>)
      modifies this
      ensures n <= 0 ==> picks == [] && Db() == old(Db())
      ensures n > 0 ==>
                var t := ReclaimStep(old(Db()), reclaimAt);
                ValidPicks(t, n, claimAt, picks) && Db() == ClaimStep(t, SetOf(picks), claimAt, worker)
      // an abandoned row is back in the queue or already claimed afresh
      ensures n > 0 ==> forall id :: id in old(rows) && Abandoned(old(rows)[id], reclaimAt) ==>
                id in rows &&
                (if id in picks then rows[id].state == InFlight && rows[id].claimedAt == Some(claimAt)
                 else rows[id].state == Pending && rows[id].claimedAt == None)
      ensures n > 0 ==> forall id :: id in picks ==>
                && id in rows && rows[id].state == InFlight && rows[id].claimedBy == worker
                && id in old(rows) && rows[id].attempts == old(rows)[id].attempts + 1
    {
      if n <= 0 { return []; }
      ReclaimStale(reclaimAt);
      picks := ClaimDue(n, worker, claimAt);
    }

    method Complete(id: string, now: Time) returns (found: bool)
      modifies this
      ensures found <==> id in old(rows)
      ensures Db() == CompleteStep(old(Db()), id, now)
    {
      found := id in rows;
      if !found { return; }
      var h := rows[id].host;
      rows := rows[id := rows[id].(state := Done, completedAt := Some(now), lastError := "")];
      if h != "" && h in hosts { hosts := hosts[h := SlotFreed(hosts[h], true)]; }
    }

    method Fail(id: string, message: string, maxAttempts: int, now: Time) returns (found: bool)
      modifies this
      ensures found <==> id in old(rows)
      ensures Db() == FailStep(old(Db()), id, now, message, maxAttempts, policy)
    {
      found := id in rows;
      if !found { return; }
      var budget := if maxAttempts <= 0 then 1 else maxAttempts;
      var r := rows[id];
      if r.attempts >= budget {
        rows := rows[id := r.(lastError := message, state := Failed)];
      } else {
        var delay := MachineBackoff(r.attempts, policy);
        rows := rows[id := r.(lastError := message, state := Pending, nextAttemptAt := Some(now + delay))];
      }
      if r.host != "" && r.host in hosts { hosts := hosts[r.host := SlotFreed(hosts[r.host], false)]; }
    }

    method Requeue(id: string) returns (after: Option<Row>)
      modifies this
      ensures Db() == RequeueStep(old(Db()), id)
      ensures after == if id in old(rows) then Some(rows[id]) else None
    {
      if id !in rows { return None; }
      var r := rows[id];
      var attempts := if r.state == Failed then r.attempts + 1 else r.attempts;
      rows := rows[id := r.(state := Pending, nextAttemptAt := None, lastError := "", attempts := attempts)];
      after := Some(rows[id]);
    }

    method Delete(id: string)
      modifies this
      ensures Db() == DeleteStep(old(Db()), id) && id !in rows && hosts == old(hosts)
      ensures forall other :: other in old(rows) && other != id ==> other in rows && rows[other] == old(rows)[other]
    {
      if id in rows {
        index := index - {rows[id].canonical};
        rows := rows - {id};
      }
    }

    /** The politeness settings are operator-owned: an upsert never tramples them. */
    method UpsertHost(h: string, windowMinutes: int, concurrencyMax: int) returns (ok: bool)
      modifies this
      ensures ok <==> h != ""
      ensures Db() == UpsertHostStep(old(Db()), h, windowMinutes, concurrencyMax)
      ensures forall g :: g in old(hosts) ==> g in hosts && hosts[g] == old(hosts)[g]
      ensures ok && h !in old(hosts) ==>
                && h in hosts && hosts[h].windowMinutes == Max(windowMinutes, 1)
                && hosts[h].concurrencyMax == Max(concurrencyMax, 1) && hosts[h].concurrencyNow == 0
    {
      ok := h != "";
      if !ok { return; }
      var window := if windowMinutes <= 0 then 1 else windowMinutes;
      var concurrency := if concurrencyMax <= 0 then 1 else concurrencyMax;
      if h !in hosts { hosts := hosts[h := NewHost(window, concurrency)]; }
    }

    method SetWindow(h: string, windowMinutes: int) returns (ok: bool)
      modifies this
      ensures ok <==> windowMinutes >= 0
      ensures Db() == SetWindowStep(old(Db()), h, windowMinutes)
      ensures ok && h in hosts ==> hosts[h].windowMinutes == windowMinutes
      // the new window applies from the next claim on: what the host is waiting for now stays
      ensures forall now :: HostOpen(Db(), h, now) <==> HostOpen(old(Db()), h, now)
    {
      ok := windowMinutes >= 0;
      if ok && h in hosts { hosts := hosts[h := hosts[h].(windowMinutes := windowMinutes)]; }
    }

    method SetConcurrency(h: string, concurrencyMax: int) returns (ok: bool)
      modifies this
      ensures ok <==> concurrencyMax > 0
      ensures Db() == SetConcurrencyStep(old(Db()), h, concurrencyMax)
      ensures ok && h in hosts ==> hosts[h].concurrencyMax == concurrencyMax
      // slots already taken stay taken, even above the new ceiling
      ensures forall g :: g in old(hosts) ==> g in hosts && hosts[g].concurrencyNow == old(hosts)[g].concurrencyNow
    {
      ok := concurrencyMax > 0;
      if ok && h in hosts { hosts := hosts[h := hosts[h].(concurrencyMax := concurrencyMax)]; }
    }
  }
}
