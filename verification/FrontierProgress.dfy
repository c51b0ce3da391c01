/**
  What becomes of a row: when it can be claimed again, and that a Dequeue then takes it. The laws
  are stated on the columns of the two tables, for every run that starts from empty tables.
 */
module FrontierProgress {
  import opened Prelude
  import opened FrontierBackoff
  import opened FrontierModel
  import opened FrontierRuns

  ghost predicate FromEmpty(tr: Trace) { Run(tr) && tr.states[0].db == EMPTY_TABLES }

  /** Waiting in the queue and due, column by column. */
  predicate InQueue(t: Tables, id: string, now: Time) {
    && id in t.rows && t.rows[id].state == Pending
    && (t.rows[id].nextAttemptAt == None || t.rows[id].nextAttemptAt.value <= now)
  }

  /** The host gate, column by column. */
  predicate GateOpen(t: Tables, h: string, now: Time) {
    && h in t.hosts && t.hosts[h].concurrencyNow < t.hosts[h].concurrencyMax
    && (t.hosts[h].nextEligibleAt == None || t.hosts[h].nextEligibleAt.value <= now)
  }

  // ---- Dequeue takes what is due ----

  /** A Dequeue claims only due rows of open hosts. A due row of an open host is passed over only
      for a row of the same host with more priority, or as much and no younger, or because n
      hosts with at least its priority were served. */
  lemma DequeueServesTheBest(t: Tables, n: int, now: Time, picks: seq<string>, id: string)
    requires ValidPicks(t, n, now, picks)
    ensures id in picks ==> InQueue(t, id, now) && GateOpen(t, t.rows[id].host, now)
    ensures InQueue(t, id, now) && GateOpen(t, t.rows[id].host, now) ==>
              || (exists i :: 0 <= i < |picks| && t.rows[picks[i]].host == t.rows[id].host
                              && (|| t.rows[picks[i]].priority > t.rows[id].priority
                                  || (&& t.rows[picks[i]].priority == t.rows[id].priority
                                      && t.rows[picks[i]].enqueuedAt <= t.rows[id].enqueuedAt)))
              || (|picks| >= n && forall i :: 0 <= i < |picks| ==> t.rows[id].priority <= t.rows[picks[i]].priority)
  {
    if InQueue(t, id, now) && GateOpen(t, t.rows[id].host, now) {
      var h := t.rows[id].host;
      assert HostOpen(t, h, now) && DueOn(t, h, id, now);
      if i :| 0 <= i < |picks| && t.rows[picks[i]].host == h {
        assert BestDue(t, h, picks[i], now);
      }
    }
  }

  // ---- Abandoned claims ----

  /** A row in flight was due when it was claimed. */
  predicate WasDue(t: Tables, id: string, now: Time) {
    id in t.rows && t.rows[id].state == InFlight ==>
      && t.rows[id].claimedAt.Some? && t.rows[id].claimedAt.value <= now
      && (t.rows[id].nextAttemptAt == None || t.rows[id].nextAttemptAt.value <= t.rows[id].claimedAt.value)
  }

  lemma StepKeepsWasDue(s: Sys, a: Action, id: string)
    requires Enabled(s, a) && WasDue(s.db, id, s.now)
    ensures WasDue(Apply(s, a).db, id, Apply(s, a).now)
  {
    if a.ClaimDue? && id in a.picks {
      DequeueServesTheBest(s.db, a.n, s.now, a.picks, id);
    }
  }

  lemma {:induction false} ClaimedWasDue(tr: Trace, k: nat, id: string)
    requires FromEmpty(tr) && k < |tr.states|
    ensures WasDue(tr.states[k].db, id, tr.states[k].now)
  {
    hide Apply, Enabled, WasDue;
    if k > 0 {
      ClaimedWasDue(tr, k - 1, id);
      StepKeepsWasDue(tr.states[k - 1], tr.acts[k - 1], id);
    } else {
      EmptyWasDue(tr.states[0].now, id);
    }
  }

  lemma EmptyWasDue(now: Time, id: string)
    ensures WasDue(EMPTY_TABLES, id, now)
  {
  }

  /** A reclaim gives back every row claimed longer ago than a lease, unclaimed and otherwise as it
      was, so that the row is due again at once; it touches no other row. */
  lemma AbandonedRowIsDueAgain(tr: Trace, k: nat, id: string)
    requires FromEmpty(tr) && k < |tr.acts| && tr.acts[k].Reclaim? && id in tr.states[k].db.rows
    ensures var s, s' := tr.states[k], tr.states[k + 1];
            var r := s.db.rows[id];
            && id in s'.db.rows
            && if r.state == InFlight && r.claimedAt.Some? && s.now - r.claimedAt.value > 900 * SECOND
               then && s'.db.rows[id] == r.(state := Pending, claimedBy := "", claimedAt := None)
                    && InQueue(s'.db, id, s'.now)
               else s'.db.rows[id] == r
  {
    ClaimedWasDue(tr, k, id);
  }

  // ---- What Complete and Fail leave ----

  /** A budget below one attempt counts as one. */
  function Budget(maxAttempts: int): int { if maxAttempts <= 0 then 1 else maxAttempts }

  /** A failure at the budget is final; below it the row is pending again, due when its backoff is
      over. Nothing else about the row changes, and no other row does. */
  lemma FailDecides(t: Tables, id: string, now: Time, message: string, maxAttempts: int, policy: Policy)
    requires id in t.rows
    ensures var r, t' := t.rows[id], FailStep(t, id, now, message, maxAttempts, policy);
            && t'.rows.Keys == t.rows.Keys && t'.rows[id].lastError == message
            && (if r.attempts < Budget(maxAttempts)
                then && t'.rows[id].state == Pending
                     && t'.rows[id].nextAttemptAt == Some(now + MachineBackoff(r.attempts, policy))
                else t'.rows[id].state == Failed && t'.rows[id].nextAttemptAt == r.nextAttemptAt)
            && t'.rows[id].(state := r.state, nextAttemptAt := r.nextAttemptAt, lastError := r.lastError) == r
            && forall other :: other in t.rows && other != id ==> t'.rows[other] == t.rows[other]
  {
  }

  lemma CompleteDecides(t: Tables, id: string, now: Time)
    requires id in t.rows
    ensures var r, t' := t.rows[id], CompleteStep(t, id, now);
            && t'.rows.Keys == t.rows.Keys
            && t'.rows[id].state == Done && t'.rows[id].completedAt == Some(now) && t'.rows[id].lastError == ""
            && t'.rows[id].(state := r.state, completedAt := r.completedAt, lastError := r.lastError) == r
            && forall other :: other in t.rows && other != id ==> t'.rows[other] == t.rows[other]
  {
  }

  /** The steps that may change a row's place in the queue. */
  predicate Touches(a: Action, id: string) {
    match a
    case ClaimDue(_, _, picks) => id in picks
    case Complete(c) => c.id == id
    case Fail(c, _, _, _) => c.id == id
    case Requeue(x) => x == id
    case Delete(x) => x == id
    case _ => false
  }

  predicate SamePlace(t: Tables, t': Tables, id: string) {
    && id in t.rows && id in t'.rows
    && t'.rows[id].(priority := 0.0) == t.rows[id].(priority := 0.0) && t'.rows[id].priority >= t.rows[id].priority
  }

  lemma StepKeepsPlace(s: Sys, a: Action, id: string)
    requires id in s.db.rows && s.db.rows[id].state != InFlight && !Touches(a, id)
    ensures SamePlace(s.db, Apply(s, a).db, id)
  {
  }

  lemma {:induction false} UntouchedKeepsPlace(tr: Trace, id: string, i: nat, j: nat)
    requires Run(tr) && i <= j < |tr.states| && id in tr.states[i].db.rows && tr.states[i].db.rows[id].state != InFlight
    requires forall k :: i <= k < j ==> !Touches(tr.acts[k], id)
    ensures SamePlace(tr.states[i].db, tr.states[j].db, id)
    decreases j
  {
    hide Apply, Enabled, Touches;
    if i < j {
      UntouchedKeepsPlace(tr, id, i, j - 1);
      StepKeepsPlace(tr.states[j - 1], tr.acts[j - 1], id);
    }
  }

  /** A row that failed below its budget is due again exactly from the end of its backoff on, for as
      long as nobody claims, finishes, requeues or deletes it. */
  lemma FailedRowIsDueAfterBackoff(tr: Trace, id: string, i: nat, j: nat)
    requires Run(tr) && i < j < |tr.states| && id in tr.states[i].db.rows
    requires tr.acts[i].Fail? && tr.acts[i].claim.id == id
    requires tr.states[i].db.rows[id].attempts < Budget(tr.acts[i].maxAttempts)
    requires forall k :: i < k < j ==> !Touches(tr.acts[k], id)
    ensures InQueue(tr.states[j].db, id, tr.states[j].now) <==>
            tr.states[j].now >= tr.states[i].now + MachineBackoff(tr.states[i].db.rows[id].attempts, tr.acts[i].policy)
  {
    var s, a := tr.states[i], tr.acts[i];
    FailDecides(s.db, id, s.now, a.message, a.maxAttempts, a.policy);
    UntouchedKeepsPlace(tr, id, i + 1, j);
  }

  /** The steps that bring a finished row back. */
  predicate Revives(a: Action, id: string) {
    (a.Fail? && a.claim.id == id) || a == Requeue(id) || a == Delete(id)
  }

  lemma StepKeepsDone(s: Sys, a: Action, id: string)
    requires Enabled(s, a) && id in s.db.rows && s.db.rows[id].state == Done && !Revives(a, id)
    ensures id in Apply(s, a).db.rows && Apply(s, a).db.rows[id].state == Done
    ensures !(a.ClaimDue? && id in a.picks)
  {
    if a.ClaimDue? { DequeueServesTheBest(s.db, a.n, s.now, a.picks, id); }
  }

  /** A completed row stays done and is never claimed again until it is failed, requeued or deleted. */
  lemma {:induction false} CompletedStaysDone(tr: Trace, id: string, i: nat, j: nat)
    requires Run(tr) && i < j < |tr.states| && tr.acts[i].Complete? && tr.acts[i].claim.id == id
    requires id in tr.states[i].db.rows && forall k :: i < k < j ==> !Revives(tr.acts[k], id)
    ensures id in tr.states[j].db.rows && tr.states[j].db.rows[id].state == Done
    ensures j < |tr.acts| ==> !(tr.acts[j].ClaimDue? && id in tr.acts[j].picks)
    decreases j
  {
    if j == i + 1 {
      CompleteDecides(tr.states[i].db, id, tr.states[i].now);
    } else {
      hide Apply, Enabled, Revives;
      CompletedStaysDone(tr, id, i, j - 1);
      StepKeepsDone(tr.states[j - 1], tr.acts[j - 1], id);
    }
    if j < |tr.acts| && tr.acts[j].ClaimDue? {
      var s := tr.states[j];
      ClaimedAreDue(s, tr.acts[j], id);
    }
  }

  lemma ClaimedAreDue(s: Sys, a: Action, id: string)
    requires Enabled(s, a) && a.ClaimDue?
    ensures id in a.picks ==> InQueue(s.db, id, s.now)
  {
    DequeueServesTheBest(s.db, a.n, s.now, a.picks, id);
  }

  // ---- New and requeued rows ----

  /** An enqueue succeeds exactly for a named URL with a host that is known already or comes under an
      unused id. A new URL is due at once with the priority it was given; on a new host the gate is
      open and paced at a minute. */
  lemma NewUrlIsDueAtOnce(t: Tables, u: Request, now: Time)
    requires IndexExact(t)
    ensures EnqueueOne(t, u, now).Ok? <==>
            u.canonical != "" && u.host != "" && (u.canonical in t.index || u.urlId !in t.rows)
    ensures EnqueueOne(t, u, now).Ok? && u.canonical !in t.index ==>
              var (t', res) := EnqueueOne(t, u, now).value;
              && res == Enqueued(u.urlId, true) && InQueue(t', u.urlId, now)
              && t'.rows[u.urlId].host == u.host && t'.rows[u.urlId].sourceId == u.sourceId
              && t'.rows[u.urlId].attempts == 0 && t'.rows[u.urlId].enqueuedAt == now
              && t'.rows[u.urlId].priority == (if u.priority == 0.0 then 0.5 else u.priority)
              && (u.host !in t.hosts ==> GateOpen(t', u.host, now) && t'.hosts[u.host].windowMinutes == 1)
  {
  }

  /** A requeued row is due at once, whatever state and wait it was in. */
  lemma RequeuedIsDueAtOnce(t: Tables, id: string, now: Time)
    requires id in t.rows
    ensures InQueue(RequeueStep(t, id), id, now) && RequeueStep(t, id).rows[id].lastError == ""
    ensures RequeueStep(t, id).hosts == t.hosts
    ensures forall other :: other in t.rows && other != id ==> RequeueStep(t, id).rows[other] == t.rows[other]
  {
  }

  // ---- The gate closes for exactly one window ----

  /** Until when the last claim on a host closed it, by the window in force at that claim. */
  ghost function ClosedBy(tr: Trace, h: string, k: nat): Option<Time>
    requires |tr.states| == |tr.acts| + 1 && k <= |tr.acts|
  {
    if k == 0 then None
    else
      var s, a := tr.states[k - 1], tr.acts[k - 1];
      if ClaimsOn(s, a, h) && h in s.db.hosts then Some(s.now + s.db.hosts[h].windowMinutes * 60 * SECOND)
      else ClosedBy(tr, h, k - 1)
  }

  predicate GateAt(t: Tables, h: string, closed: Option<Time>) {
    if h in t.hosts then t.hosts[h].nextEligibleAt == closed else closed == None
  }

  lemma StepMovesGate(s: Sys, a: Action, h: string, closed: Option<Time>)
    requires GateAt(s.db, h, closed)
    ensures GateAt(Apply(s, a).db, h, if ClaimsOn(s, a, h) && h in s.db.hosts
                                      then Some(s.now + s.db.hosts[h].windowMinutes * 60 * SECOND) else closed)
  {
  }

  /** In every state a host's gate is closed until exactly one window after the last claim on it, and
      not at all before the first: no claim is delayed longer than politeness asks. */
  lemma {:induction false} GateClosesForOneWindow(tr: Trace, h: string, k: nat)
    requires FromEmpty(tr) && k <= |tr.acts|
    ensures GateAt(tr.states[k].db, h, ClosedBy(tr, h, k))
  {
    if k > 0 {
      hide Apply, Enabled, GateAt;
      GateClosesForOneWindow(tr, h, k - 1);
      StepMovesGate(tr.states[k - 1], tr.acts[k - 1], h, ClosedBy(tr, h, k - 1));
    }
  }
}
