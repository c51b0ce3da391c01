/**
  The URL frontier: `url_frontier` (one row per canonical URL) and `host_state` (one row per
  host, the politeness gate). Every transaction of the frontier is a function from tables to
  tables; the class in FrontierStore computes them, and FrontierRuns reasons about whole runs.

  Times and durations are integers in nanoseconds.
 */
module FrontierModel {
  import opened Prelude
  import opened FrontierBackoff

  type Time = int

  const STALE_LEASE: int := 900 * SECOND
  const WORKER_DEADLINE: int := 360 * SECOND

  datatype UrlState = Pending | InFlight | Done | Failed | Parked

  datatype Row = Row(
    canonical: string, host: string, sourceId: string, priority: real,
    state: UrlState, attempts: nat, lastError: string, enqueuedAt: Time,
    claimedAt: Option<Time>, claimedBy: string,
    completedAt: Option<Time>, nextAttemptAt: Option<Time>)

  datatype HostState = HostState(
    windowMinutes: nat, concurrencyMax: nat, concurrencyNow: nat,
    lastRequestAt: Option<Time>, nextEligibleAt: Option<Time>, okCount: nat, errCount: nat)

  /** `index` is the unique index on the canonical URL's hash. */
  datatype Tables = Tables(
    rows: map<string, Row>, index: map<string, string>, hosts: map<string, HostState>)

  const EMPTY_TABLES := Tables(map[], map[], map[])

  function NewHost(windowMinutes: nat, concurrencyMax: nat): HostState {
    HostState(windowMinutes, concurrencyMax, 0, None, None, 0, 0)
  }

  function EnsureHost(hosts: map<string, HostState>, h: string, initial: HostState): map<string, HostState> {
    if h in hosts then hosts else hosts[h := initial]
  }

  // ---- Enqueue ----

  /** One URL of an Enqueue call after canonicalisation, host extraction and id generation. */
  datatype Request = Request(urlId: string, canonical: string, host: string, sourceId: string, priority: real)

  datatype Enqueued = Enqueued(urlId: string, inserted: bool)

  datatype EnqueueError = InvalidUrl | DuplicateUrlId

  /** A zero priority is not written, so the column's default applies. */
  function InitialPriority(p: real): real { if p == 0.0 then 0.5 else p }

  function FreshRow(u: Request, now: Time): Row {
    Row(u.canonical, u.host, u.sourceId, InitialPriority(u.priority), Pending, 0, "", now, None, "", None, None)
  }

  /** The per-URL transaction of Enqueue. */
  function EnqueueOne(t: Tables, u: Request, now: Time): Result<(Tables, Enqueued), EnqueueError> {
    if u.canonical == "" || u.host == "" then Err(InvalidUrl)
    else
      var hosts := EnsureHost(t.hosts, u.host, NewHost(1, 1));
      if u.canonical in t.index && t.index[u.canonical] in t.rows then
        var id := t.index[u.canonical];
        var rows := if u.priority > t.rows[id].priority
                    then t.rows[id := t.rows[id].(priority := u.priority)] else t.rows;
        Ok((t.(rows := rows, hosts := hosts), Enqueued(id, false)))
      else if u.urlId in t.rows then Err(DuplicateUrlId)
      else Ok((Tables(t.rows[u.urlId := FreshRow(u, now)], t.index[u.canonical := u.urlId], hosts),
               Enqueued(u.urlId, true)))
  }

  function AfterEnqueueOne(t: Tables, u: Request, now: Time): Tables {
    match EnqueueOne(t, u, now)
    case Ok((t', _)) => t'
    case Err(_) => t
  }

  // ---- Dequeue ----

  predicate Due(r: Row, now: Time) {
    r.state == Pending && (r.nextAttemptAt.None? || r.nextAttemptAt.value <= now)
  }

  predicate DueOn(t: Tables, h: string, id: string, now: Time) {
    id in t.rows && t.rows[id].host == h && Due(t.rows[id], now)
  }

  /** Phase 1's filter on a host apart from having work. */
  predicate HostOpen(t: Tables, h: string, now: Time) {
    && h in t.hosts
    && (t.hosts[h].nextEligibleAt.None? || t.hosts[h].nextEligibleAt.value <= now)
    && t.hosts[h].concurrencyNow < t.hosts[h].concurrencyMax
  }

  ghost predicate Eligible(t: Tables, h: string, now: Time) {
    HostOpen(t, h, now) && exists id :: DueOn(t, h, id, now)
  }

  /** The dequeue order within a host: priority descending, then age. */
  predicate NoWorse(a: Row, b: Row) {
    a.priority > b.priority || (a.priority == b.priority && a.enqueuedAt <= b.enqueuedAt)
  }

  ghost predicate BestDue(t: Tables, h: string, id: string, now: Time) {
    DueOn(t, h, id, now) && forall other :: DueOn(t, h, other, now) ==> NoWorse(t.rows[id], t.rows[other])
  }

  ghost predicate OneRowPerHost(t: Tables, picks: seq<string>) {
    && (forall i :: 0 <= i < |picks| ==> picks[i] in t.rows)
    && (forall i, j :: 0 <= i < j < |picks| ==> t.rows[picks[i]].host != t.rows[picks[j]].host)
  }

  /** What one Dequeue transaction may claim: up to n hosts with the most urgent work, and on
      each of them the best due row. */
  ghost predicate ValidPicks(t: Tables, n: int, now: Time, picks: seq<string>) {
    && |picks| <= Max(n, 0)
    && OneRowPerHost(t, picks)
    && (forall i :: 0 <= i < |picks| ==>
          HostOpen(t, t.rows[picks[i]].host, now) && BestDue(t, t.rows[picks[i]].host, picks[i], now))
    && (forall i, j :: 0 <= i < j < |picks| ==> t.rows[picks[i]].priority >= t.rows[picks[j]].priority)
    && (forall h, id :: HostOpen(t, h, now) && DueOn(t, h, id, now) ==>
          || (exists i :: 0 <= i < |picks| && t.rows[picks[i]].host == h)
          || (|picks| >= n && forall i :: 0 <= i < |picks| ==> t.rows[id].priority <= t.rows[picks[i]].priority))
  }

  function Claimed(r: Row, now: Time, worker: string): Row {
    r.(state := InFlight, claimedAt := Some(now), claimedBy := worker, attempts := r.attempts + 1)
  }

  function SlotTaken(h: HostState, now: Time): HostState {
    h.(concurrencyNow := h.concurrencyNow + 1, lastRequestAt := Some(now),
       nextEligibleAt := Some(now + h.windowMinutes * MINUTE))
  }

  function HostsOf(rows: map<string, Row>, picks: set<string>): set<string> {
    set id | id in picks && id in rows :: rows[id].host
  }

  function ClaimStep(t: Tables, picks: set<string>, now: Time, worker: string): Tables {
    var busy := HostsOf(t.rows, picks);
    t.(rows := map id | id in t.rows :: if id in picks then Claimed(t.rows[id], now, worker) else t.rows[id],
       hosts := map h | h in t.hosts :: if h in busy then SlotTaken(t.hosts[h], now) else t.hosts[h])
  }

  // ---- Reclaim of stale leases ----

  predicate Stale(r: Row, now: Time) {
    r.state == InFlight && r.claimedAt.Some? && r.claimedAt.value < now - STALE_LEASE
  }

  function StaleOf(rows: map<string, Row>, h: string, now: Time): set<string> {
    set id | id in rows && rows[id].host == h && Stale(rows[id], now)
  }

  function Released(r: Row): Row {
    r.(state := Pending, claimedBy := "", claimedAt := None)
  }

  function ReclaimStep(t: Tables, now: Time): Tables {
    t.(rows := map id | id in t.rows :: if Stale(t.rows[id], now) then Released(t.rows[id]) else t.rows[id],
       hosts := map h | h in t.hosts ::
                  t.hosts[h].(concurrencyNow := Max(t.hosts[h].concurrencyNow - |StaleOf(t.rows, h, now)|, 0)))
  }

  // ---- Finishing a claim ----

  function SlotFreed(h: HostState, ok: bool): HostState {
    h.(concurrencyNow := Max(h.concurrencyNow - 1, 0),
       okCount := if ok then h.okCount + 1 else h.okCount,
       errCount := if ok then h.errCount else h.errCount + 1)
  }

  function FreeSlot(hosts: map<string, HostState>, h: string, ok: bool): map<string, HostState> {
    if h != "" && h in hosts then hosts[h := SlotFreed(hosts[h], ok)] else hosts
  }

  /** Complete loads the row and fails when it is missing; it does not look at the row's state. */
  function CompleteStep(t: Tables, id: string, now: Time): Tables {
    if id !in t.rows then t
    else t.(rows := t.rows[id := t.rows[id].(state := Done, completedAt := Some(now), lastError := "")],
            hosts := FreeSlot(t.hosts, t.rows[id].host, true))
  }

  function FailedRow(r: Row, now: Time, message: string, maxAttempts: int, policy: Policy): Row {
    if r.attempts >= Max(maxAttempts, 1) then r.(lastError := message, state := Failed)
    else r.(lastError := message, state := Pending,
            nextAttemptAt := Some(now + MachineBackoff(r.attempts, policy)))
  }

  function FailStep(t: Tables, id: string, now: Time, message: string, maxAttempts: int, policy: Policy): Tables {
    if id !in t.rows then t
    else t.(rows := t.rows[id := FailedRow(t.rows[id], now, message, maxAttempts, policy)],
            hosts := FreeSlot(t.hosts, t.rows[id].host, false))
  }

  // ---- Operator surface ----

  function RequeueStep(t: Tables, id: string): Tables {
    if id !in t.rows then t
    else
      var r := t.rows[id];
      t.(rows := t.rows[id := r.(state := Pending, nextAttemptAt := None, lastError := "",
                                 attempts := if r.state == Failed then r.attempts + 1 else r.attempts)])
  }

  function DeleteStep(t: Tables, id: string): Tables {
    if id !in t.rows then t else t.(rows := t.rows - {id}, index := t.index - {t.rows[id].canonical})
  }

  function UpsertHostStep(t: Tables, h: string, windowMinutes: int, concurrencyMax: int): Tables {
    if h == "" then t
    else t.(hosts := EnsureHost(t.hosts, h,
                                NewHost(if windowMinutes <= 0 then 1 else windowMinutes,
                                        if concurrencyMax <= 0 then 1 else concurrencyMax)))
  }

  function SetWindowStep(t: Tables, h: string, windowMinutes: int): Tables {
    if windowMinutes < 0 || h !in t.hosts then t
    else t.(hosts := t.hosts[h := t.hosts[h].(windowMinutes := windowMinutes)])
  }

  function SetConcurrencyStep(t: Tables, h: string, concurrencyMax: int): Tables {
    if concurrencyMax <= 0 || h !in t.hosts then t
    else t.(hosts := t.hosts[h := t.hosts[h].(concurrencyMax := concurrencyMax)])
  }

  // ---- What the two tables must agree on ----

  ghost predicate IndexExact(t: Tables) {
    && (forall c :: c in t.index ==> t.index[c] in t.rows && t.rows[t.index[c]].canonical == c)
    && (forall id :: id in t.rows ==> t.rows[id].canonical in t.index && t.index[t.rows[id].canonical] == id)
  }

  ghost predicate HostsKnown(t: Tables) {
    forall id :: id in t.rows ==> t.rows[id].host in t.hosts && t.rows[id].host != ""
  }

  function InFlightOf(rows: map<string, Row>, h: string): set<string> {
    set id | id in rows && rows[id].host == h && rows[id].state == InFlight
  }

  /** A host's slot counter is the number of its rows that are in flight. */
  ghost predicate SlotsExact(t: Tables) {
    forall h :: h in t.hosts ==> t.hosts[h].concurrencyNow == |InFlightOf(t.rows, h)|
  }

  // ---- What each transaction does to the agreement ----

  lemma RowReplaced(t: Tables, id: string, r: Row, h: string)
    requires id in t.rows && r.host == t.rows[id].host
    ensures InFlightOf(t.rows[id := r], h) ==
            if t.rows[id].host != h then InFlightOf(t.rows, h)
            else if r.state == InFlight then InFlightOf(t.rows, h) + {id}
            else InFlightOf(t.rows, h) - {id}
  {
  }

  /** Finishing the row `id` keeps the counters exact precisely when the row is in flight, or
      its host has no slot taken at all (the clamp at zero then hides the mistake). */
  lemma FinishKeepsSlotsIff(t: Tables, id: string, r: Row, ok: bool)
    requires SlotsExact(t) && HostsKnown(t) && id in t.rows
    requires r.host == t.rows[id].host && r.state != InFlight
    ensures SlotsExact(t.(rows := t.rows[id := r], hosts := FreeSlot(t.hosts, r.host, ok)))
            <==> t.rows[id].state == InFlight || InFlightOf(t.rows, r.host) == {}
  {
    var t' := t.(rows := t.rows[id := r], hosts := FreeSlot(t.hosts, r.host, ok));
    forall h | h in t'.hosts
      ensures h != r.host ==> t'.hosts[h].concurrencyNow == |InFlightOf(t'.rows, h)|
    {
      RowReplaced(t, id, r, h);
    }
    RowReplaced(t, id, r, r.host);
    if t.rows[id].state == InFlight {
      assert id in InFlightOf(t.rows, r.host);
    } else {
      assert InFlightOf(t'.rows, r.host) == InFlightOf(t.rows, r.host);
    }
    assert t'.hosts[r.host].concurrencyNow == Max(|InFlightOf(t.rows, r.host)| - 1, 0);
  }

  /** Requeue never touches the counter, so it leaks a slot exactly on an in-flight row. */
  lemma RequeueKeepsSlotsIff(t: Tables, id: string)
    requires SlotsExact(t) && HostsKnown(t)
    ensures SlotsExact(RequeueStep(t, id)) <==> (id in t.rows ==> t.rows[id].state != InFlight)
  {
    if id in t.rows {
      var r := RequeueStep(t, id).rows[id];
      forall h ensures h != r.host ==> InFlightOf(t.rows[id := r], h) == InFlightOf(t.rows, h) {
        RowReplaced(t, id, r, h);
      }
      RowReplaced(t, id, r, r.host);
      if t.rows[id].state == InFlight {
        assert id in InFlightOf(t.rows, r.host);
      }
    }
  }

  /** So does Delete. */
  lemma DeleteKeepsSlotsIff(t: Tables, id: string)
    requires SlotsExact(t) && HostsKnown(t)
    ensures SlotsExact(DeleteStep(t, id)) <==> (id in t.rows ==> t.rows[id].state != InFlight)
  {
    var t' := DeleteStep(t, id);
    if id in t.rows && t.rows[id].state == InFlight {
      var host := t.rows[id].host;
      assert id in InFlightOf(t.rows, host);
      assert InFlightOf(t'.rows, host) == InFlightOf(t.rows, host) - {id};
      assert host in t'.hosts && t'.hosts[host].concurrencyNow != |InFlightOf(t'.rows, host)|;
    } else {
      forall h | h in t'.hosts ensures t'.hosts[h].concurrencyNow == |InFlightOf(t'.rows, h)| {
        assert InFlightOf(t'.rows, h) == InFlightOf(t.rows, h);
      }
    }
  }

  /** A claim puts one more row in flight on each of its hosts and none elsewhere. */
  lemma ClaimAddsOne(t: Tables, picks: seq<string>, now: Time, worker: string, h: string)
    requires OneRowPerHost(t, picks)
    ensures var rows' := ClaimStep(t, SetOf(picks), now, worker).rows;
            if h in HostsOf(t.rows, SetOf(picks))
            then exists i :: 0 <= i < |picks| && t.rows[picks[i]].host == h
                             && InFlightOf(rows', h) == InFlightOf(t.rows, h) + {picks[i]}
            else InFlightOf(rows', h) == InFlightOf(t.rows, h)
  {
    var chosen := SetOf(picks);
    var rows' := ClaimStep(t, chosen, now, worker).rows;
    if h in HostsOf(t.rows, chosen) {
      var i :| 0 <= i < |picks| && t.rows[picks[i]].host == h;
      assert forall j :: 0 <= j < |picks| && t.rows[picks[j]].host == h ==> j == i;
      assert InFlightOf(rows', h) == InFlightOf(t.rows, h) + {picks[i]};
    } else {
      forall id | id in t.rows && id in chosen ensures t.rows[id].host != h {
        assert t.rows[id].host in HostsOf(t.rows, chosen);
      }
      assert InFlightOf(rows', h) == InFlightOf(t.rows, h);
    }
  }

  lemma ClaimKeepsSlots(t: Tables, picks: seq<string>, now: Time, worker: string)
    requires SlotsExact(t) && OneRowPerHost(t, picks)
    requires forall i :: 0 <= i < |picks| ==> t.rows[picks[i]].state != InFlight
    ensures SlotsExact(ClaimStep(t, SetOf(picks), now, worker))
  {
    hide HostsOf;
    var t' := ClaimStep(t, SetOf(picks), now, worker);
    forall h | h in t'.hosts ensures t'.hosts[h].concurrencyNow == |InFlightOf(t'.rows, h)| {
      ClaimAddsOne(t, picks, now, worker, h);
    }
  }

  lemma ReclaimKeepsSlots(t: Tables, now: Time)
    requires SlotsExact(t)
    ensures SlotsExact(ReclaimStep(t, now))
    // the clamp at zero never bites
    ensures forall h :: h in t.hosts ==> |StaleOf(t.rows, h, now)| <= t.hosts[h].concurrencyNow
  {
    var t' := ReclaimStep(t, now);
    forall h | h in t.hosts
      ensures |StaleOf(t.rows, h, now)| <= t.hosts[h].concurrencyNow
      ensures t'.hosts[h].concurrencyNow == |InFlightOf(t'.rows, h)|
    {
      SubsetSize(StaleOf(t.rows, h, now), InFlightOf(t.rows, h));
      assert InFlightOf(t'.rows, h) == InFlightOf(t.rows, h) - StaleOf(t.rows, h, now);
    }
  }

  lemma HostSettingsKeepSlots(t: Tables, h: string, windowMinutes: int, concurrencyMax: int)
    requires HostsKnown(t) && SlotsExact(t)
    ensures SlotsExact(UpsertHostStep(t, h, windowMinutes, concurrencyMax))
    ensures SlotsExact(SetWindowStep(t, h, windowMinutes))
    ensures SlotsExact(SetConcurrencyStep(t, h, concurrencyMax))
  {
    if h !in t.hosts {
      assert InFlightOf(t.rows, h) == {};
    }
  }

  lemma EnqueueKeepsIndex(t: Tables, u: Request, now: Time)
    requires IndexExact(t)
    ensures IndexExact(AfterEnqueueOne(t, u, now))
  {
  }

  lemma EnqueueKeepsHosts(t: Tables, u: Request, now: Time)
    requires HostsKnown(t)
    ensures HostsKnown(AfterEnqueueOne(t, u, now))
  {
  }

  lemma EnqueueKeepsTables(t: Tables, u: Request, now: Time)
    requires IndexExact(t) && HostsKnown(t)
    ensures IndexExact(AfterEnqueueOne(t, u, now)) && HostsKnown(AfterEnqueueOne(t, u, now))
  {
    hide IndexExact, HostsKnown, AfterEnqueueOne;
    EnqueueKeepsIndex(t, u, now);
    EnqueueKeepsHosts(t, u, now);
  }

  lemma EnqueueSparesInFlight(t: Tables, u: Request, now: Time, h: string)
    ensures InFlightOf(AfterEnqueueOne(t, u, now).rows, h) == InFlightOf(t.rows, h)
  {
  }

  lemma EnqueueKeepsSlots(t: Tables, u: Request, now: Time)
    requires HostsKnown(t) && SlotsExact(t)
    ensures SlotsExact(AfterEnqueueOne(t, u, now))
  {
    var t' := AfterEnqueueOne(t, u, now);
    assert t'.hosts == t.hosts || t'.hosts == EnsureHost(t.hosts, u.host, NewHost(1, 1));
    forall h | h in t'.hosts ensures t'.hosts[h].concurrencyNow == |InFlightOf(t'.rows, h)| {
      EnqueueSparesInFlight(t, u, now, h);
      if h !in t.hosts {
        assert InFlightOf(t.rows, h) == {};
      }
    }
  }

  /** Re-discovering a URL keeps the row's identity, state, attempts and host, and leaves it with
      the greater of the two priorities; a new URL starts pending and unclaimed. */
  lemma EnqueueMerges(t: Tables, u: Request, now: Time)
    requires IndexExact(t)
    ensures u.canonical == "" || u.host == "" <==> EnqueueOne(t, u, now) == Err(InvalidUrl)
    ensures EnqueueOne(t, u, now).Ok? ==>
              var (t', res) := EnqueueOne(t, u, now).value;
              && res.urlId in t'.rows && t'.rows[res.urlId].canonical == u.canonical
              && t'.rows[res.urlId].priority >= u.priority
              && u.host in t'.hosts
              && (res.inserted <==> res.urlId !in t.rows)
              && (res.inserted ==> t'.rows[res.urlId] == FreshRow(u, now))
              && (!res.inserted ==>
                    && t'.rows[res.urlId].(priority := 0.0) == t.rows[res.urlId].(priority := 0.0)
                    && t'.rows[res.urlId].priority in {u.priority, t.rows[res.urlId].priority}
                    && t'.rows[res.urlId].priority >= t.rows[res.urlId].priority)
              && (forall id :: id in t.rows && id != res.urlId ==> id in t'.rows && t'.rows[id] == t.rows[id])
  {
  }
}
