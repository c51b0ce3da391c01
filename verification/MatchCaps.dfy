/**
  Match generation. Gap-fill serves one candidate and fan-out one opportunity; both upsert into
  the match table after counting what the candidate's plan still allows. Counting and writing
  are not one transaction, so a run here is serialised: no other run writes between them.
 */
module MatchCaps {
  import opened Prelude
  import opened FrontierBackoff
  import opened Scoring
  import opened MatchTable

  const WEEK: int := 7 * DAY

  /** The rows CountNonOverflowThisWeek counts. */
  function Billable(rows: Rows, candidate: string, now: MatchTable.Time): set<Pair> {
    set p | p in rows && p.candidate == candidate && rows[p].status != Overflow && rows[p].createdAt > now - WEEK
  }

  datatype Scored = Scored(id: string, total: real)

  /** The reranker's score for an item, when it ran and produced one. */
  function RerankOf(rerank: map<string, real>, id: string): Option<real> {
    if id in rerank then Some(rerank[id]) else None
  }

  // ---- Gap-fill ----

  datatype GapInput = GapInput(
    candidate: Candidate, minScore: real, dailyCap: int, weeklyCap: int, runId: string, rerank: map<string, real>)

  datatype OpeningHit = OpeningHit(opening: Opening, distance: real)

  /** The hits that clear the threshold, in retrieval order. */
  function GapScored(gap: GapInput, hits: seq<OpeningHit>, w: Weights, now: MatchTable.Time): seq<Scored> {
    if hits == [] then []
    else
      var init, h := GapScored(gap, hits[..|hits| - 1], w, now), hits[|hits| - 1];
      var total := GapTotal(gap.candidate, h.opening, h.distance, w, now);
      if total < gap.minScore then init else init + [Scored(h.opening.id, total)]
  }

  ghost predicate Descending(s: seq<Scored>) {
    forall i, j :: 0 <= i < j < |s| ==> s[i].total >= s[j].total
  }

  /** A result of the sort by score; ties may come out in any order. */
  ghost predicate Ranked(order: seq<Scored>, hits: seq<Scored>) {
    Descending(order) && multiset(order) == multiset(hits)
  }

  /** The hits a gap-fill goes on to write: a prefix of the ranking. */
  function GapKept(gap: GapInput, order: seq<Scored>, weekUsed: int, todayUsed: int): seq<Scored> {
    var room := gap.weeklyCap - weekUsed;
    var kept := if gap.weeklyCap <= 0 then order
                else if room <= 0 then []
                else order[..Min(room, |order|)];
    if gap.dailyCap > 0 && todayUsed >= gap.dailyCap then [] else kept
  }

  function GapStatus(gap: GapInput, todayUsed: int, i: nat): Status {
    if gap.dailyCap > 0 && todayUsed + i >= gap.dailyCap then Overflow else New
  }

  function GapMatch(gap: GapInput, s: Scored, status: Status, matchId: string): Match {
    Match(matchId, Pair(gap.candidate.id, s.id), status, s.total,
          RerankOf(gap.rerank, s.id), s.id in gap.rerank, gap.runId, map["path" := "gap"])
  }

  function GapMatches(gap: GapInput, kept: seq<Scored>, todayUsed: int, ids: nat -> string): seq<Match> {
    seq(|kept|, i requires 0 <= i < |kept| => GapMatch(gap, kept[i], GapStatus(gap, todayUsed, i), ids(i)))
  }

  lemma GapMatchesOwn(gap: GapInput, kept: seq<Scored>, todayUsed: int, ids: nat -> string)
    ensures var ms := GapMatches(gap, kept, todayUsed, ids);
            forall i :: 0 <= i < |ms| ==>
              ms[i].pair.candidate == gap.candidate.id && ms[i].status == GapStatus(gap, todayUsed, i)
  {
    var ms := GapMatches(gap, kept, todayUsed, ids);
    forall i | 0 <= i < |ms|
      ensures ms[i].pair.candidate == gap.candidate.id && ms[i].status == GapStatus(gap, todayUsed, i)
    {
      assert ms[i] == GapMatch(gap, kept[i], GapStatus(gap, todayUsed, i), ids(i));
    }
  }

  /** What a gap-fill run writes, given the ranking and what its counters read. */
  function GapStep(rows: Rows, gap: GapInput, order: seq<Scored>, weekUsed: int, todayUsed: int,
                   ids: nat -> string, now: MatchTable.Time): Rows {
    UpsertAll(rows, GapMatches(gap, GapKept(gap, order, weekUsed, todayUsed), todayUsed, ids), now)
  }

  /** Whatever a gap-fill cuts scores no higher than anything it keeps. */
  lemma GapKeepsTheBest(gap: GapInput, order: seq<Scored>, hits: seq<Scored>, weekUsed: int, todayUsed: int)
    requires Ranked(order, hits)
    ensures var kept := GapKept(gap, order, weekUsed, todayUsed);
            && kept <= order && multiset(kept) <= multiset(hits)
            && (forall i, j :: 0 <= i < |kept| <= j < |order| ==> kept[i].total >= order[j].total)
            && (gap.weeklyCap > 0 ==> |kept| <= Max(gap.weeklyCap - weekUsed, 0))
  {
    var kept := GapKept(gap, order, weekUsed, todayUsed);
    assert order == kept + order[|kept|..];
  }

  datatype Reason = Delivered | NoInventory | BelowThreshold | WeeklyCapReached | DailyCapReached

  /** What a gap-fill reports back. */
  datatype GapReport = GapReport(scanned: nat, aboveMin: nat, written: nat, reason: Reason, weeklyUsed: int)

  function Reported(gap: GapInput, scanned: nat, order: seq<Scored>, weekUsed: int, todayUsed: int,
                    written: nat): GapReport {
    if gap.weeklyCap > 0 && weekUsed >= gap.weeklyCap then
      GapReport(scanned, |order|, 0, WeeklyCapReached, weekUsed)
    else if gap.dailyCap > 0 && todayUsed >= gap.dailyCap && |order| > 0 then
      GapReport(scanned, |order|, 0, DailyCapReached, weekUsed)
    else
      GapReport(scanned, |order|, written,
                if written > 0 then Delivered
                else if scanned == 0 then NoInventory
                else if |order| == 0 then BelowThreshold
                else if gap.dailyCap > 0 && todayUsed >= gap.dailyCap then DailyCapReached
                else BelowThreshold,
                weekUsed + written)
  }

  /** Whatever a gap-fill reports beside a delivery is the true cause: nothing retrieved, nothing
      over the threshold, or a cap that was read as spent. It claims a delivery exactly when it
      planned one; whether the plan landed is a matter of the table. */
  lemma ReasonsHold(gap: GapInput, hits: seq<OpeningHit>, w: Weights, now: MatchTable.Time, order: seq<Scored>,
                    weekUsed: int, todayUsed: int, ids: nat -> string)
    requires Ranked(order, GapScored(gap, hits, w, now)) && todayUsed >= 0
    ensures var ms := GapMatches(gap, GapKept(gap, order, weekUsed, todayUsed), todayUsed, ids);
            var r := Reported(gap, |hits|, order, weekUsed, todayUsed, Charges(ms, gap.candidate.id));
            && r.scanned == |hits| && r.aboveMin == |GapScored(gap, hits, w, now)|
            && (r.reason == Delivered <==> GapKept(gap, order, weekUsed, todayUsed) != [])
            && (r.reason == NoInventory ==> |hits| == 0)
            && (r.reason == BelowThreshold ==> |hits| > 0 && GapScored(gap, hits, w, now) == [])
            && (r.reason == WeeklyCapReached ==> 0 < gap.weeklyCap <= weekUsed)
            && (r.reason == DailyCapReached ==> 0 < gap.dailyCap <= todayUsed)
  {
    hide Descending, GapScored, GapMatch;
    var kept := GapKept(gap, order, weekUsed, todayUsed);
    var ms := GapMatches(gap, kept, todayUsed, ids);
    RankedLength(order, GapScored(gap, hits, w, now));
    GapMatchesOwn(gap, kept, todayUsed, ids);
    if kept == [] {
      ChargesAtMost(ms, gap.candidate.id);
    } else {
      ChargesAtLeastOne(ms, gap.candidate.id, 0);
    }
    GapScoredLength(gap, hits, w, now);
  }

  lemma RankedLength(order: seq<Scored>, hits: seq<Scored>)
    requires Ranked(order, hits)
    ensures |order| == |hits|
  {
    assert |multiset(order)| == |order| && |multiset(hits)| == |hits|;
  }

  lemma {:induction false} GapScoredLength(gap: GapInput, hits: seq<OpeningHit>, w: Weights, now: MatchTable.Time)
    ensures |GapScored(gap, hits, w, now)| <= |hits|
  {
    if hits != [] { GapScoredLength(gap, hits[..|hits| - 1], w, now); }
  }

  lemma {:induction false} ChargesAtLeastOne(ms: seq<Match>, candidate: string, i: nat)
    requires i < |ms| && ms[i].pair.candidate == candidate && ms[i].status != Overflow
    ensures Charges(ms, candidate) > 0
  {
    if i < |ms| - 1 { ChargesAtLeastOne(ms[..|ms| - 1], candidate, i); }
  }

  // ---- Fan-out ----

  datatype FanInput = FanInput(opening: Opening, canonicalId: string, runId: string, rerank: map<string, real>)

  datatype CandidateHit = CandidateHit(candidate: Candidate, distance: real)

  function FanScored(opening: Opening, hits: seq<CandidateHit>, w: Weights, now: MatchTable.Time)
    : seq<(Candidate, real)>
  {
    if hits == [] then []
    else
      var init, h := FanScored(opening, hits[..|hits| - 1], w, now), hits[|hits| - 1];
      var total := FanTotal(h.candidate, opening, h.distance, w, now);
      if total < h.candidate.minScore then init else init + [(h.candidate, total)]
  }

  /** Counters a fan-out consults: today's events per candidate, and the weekly count. */
  datatype Counters = Counters(today: map<string, int>, week: map<string, int>, enforceWeekly: bool)

  /** The status of one hit and the weekly count carried to the next. */
  function FanDecide(c: Candidate, counters: Counters, used: map<string, int>): (Status, map<string, int>) {
    if c.id in counters.today && c.dailyCap > 0 && counters.today[c.id] >= c.dailyCap then (Overflow, used)
    else if counters.enforceWeekly && c.weeklyCap > 0 then
      var n := if c.id in used then used[c.id] else if c.id in counters.week then counters.week[c.id] else 0;
      if n >= c.weeklyCap then (Overflow, used[c.id := n]) else (New, used[c.id := n + 1])
    else (New, used)
  }

  function FanPlan(scored: seq<(Candidate, real)>, counters: Counters): (seq<Status>, map<string, int>) {
    if scored == [] then ([], map[])
    else
      var (statuses, used) := FanPlan(scored[..|scored| - 1], counters);
      var (status, used') := FanDecide(scored[|scored| - 1].0, counters, used);
      (statuses + [status], used')
  }

  lemma {:induction false} FanPlanLength(scored: seq<(Candidate, real)>, counters: Counters)
    ensures |FanPlan(scored, counters).0| == |scored|
  {
    if scored != [] { FanPlanLength(scored[..|scored| - 1], counters); }
  }

  function FanMatch(fan: FanInput, c: Candidate, total: real, status: Status, matchId: string): Match {
    Match(matchId, Pair(c.id, fan.opening.id), status, total, RerankOf(fan.rerank, c.id), c.id in fan.rerank, fan.runId,
          map["path" := "fanout", "canonical_id" := fan.canonicalId, "kind" := fan.opening.kind])
  }

  function FanMatches(fan: FanInput, scored: seq<(Candidate, real)>, statuses: seq<Status>,
                      ids: nat -> string): seq<Match>
    requires |scored| == |statuses|
  {
    seq(|scored|, i requires 0 <= i < |scored| => FanMatch(fan, scored[i].0, scored[i].1, statuses[i], ids(i)))
  }

  function FanStep(rows: Rows, fan: FanInput, scored: seq<(Candidate, real)>, counters: Counters,
                   ids: nat -> string, now: MatchTable.Time): Rows {
    FanPlanLength(scored, counters);
    UpsertAll(rows, FanMatches(fan, scored, FanPlan(scored, counters).0, ids), now)
  }

  // ---- On-demand matches ----

  /** A batch of on-demand hits for one candidate; `caps` is None when the caller sets none. */
  datatype PersistInput = PersistInput(candidate: string, path: string, batchId: string, caps: Option<PersistCaps>)

  datatype PersistCaps = PersistCaps(dailyCap: int, weeklyCap: int, weekUsed: int, dayUsed: int)

  predicate DayFull(caps: Option<PersistCaps>) {
    caps.Some? && caps.value.dailyCap > 0 && caps.value.dayUsed >= caps.value.dailyCap
  }

  /** What is left of the week; None is unlimited. */
  function RoomLeft(caps: Option<PersistCaps>): Option<nat> {
    if caps.Some? && caps.value.weeklyCap > 0 then Some(Max(caps.value.weeklyCap - caps.value.weekUsed, 0)) else None
  }

  /** The matches a ranked batch becomes, and the room left after it; hits without an id drop out. */
  function PersistPlan(pin: PersistInput, order: seq<Scored>, ids: nat -> string): (seq<Match>, Option<nat>) {
    if order == [] then ([], RoomLeft(pin.caps))
    else
      var (ms, room) := PersistPlan(pin, order[..|order| - 1], ids);
      var h := order[|order| - 1];
      if h.id == "" then (ms, room)
      else if DayFull(pin.caps) || room == Some(0) then (ms + [PersistMatch(pin, h, Overflow, ids(|ms|))], room)
      else (ms + [PersistMatch(pin, h, New, ids(|ms|))], if room.Some? then Some(room.value - 1) else None)
  }

  function PersistMatch(pin: PersistInput, h: Scored, status: Status, matchId: string): Match {
    Match(matchId, Pair(pin.candidate, h.id), status, h.total, None, false, pin.batchId, map["path" := pin.path])
  }

  function PersistStep(rows: Rows, pin: PersistInput, order: seq<Scored>, ids: nat -> string,
                       now: MatchTable.Time): Rows {
    UpsertAll(rows, PersistPlan(pin, order, ids).0, now)
  }

  /** Whatever room the batch spends it charges, and it charges nothing more. */
  lemma {:induction false} PersistCharges(pin: PersistInput, order: seq<Scored>, ids: nat -> string)
    ensures forall m :: m in PersistPlan(pin, order, ids).0 ==> m.pair.candidate == pin.candidate
    ensures var (ms, room) := PersistPlan(pin, order, ids);
            && (RoomLeft(pin.caps).Some? ==>
                  room.Some? && Charges(ms, pin.candidate) + room.value == RoomLeft(pin.caps).value)
            && (DayFull(pin.caps) ==> Charges(ms, pin.candidate) == 0)
  {
    if order != [] {
      PersistCharges(pin, order[..|order| - 1], ids);
      var before, ms := PersistPlan(pin, order[..|order| - 1], ids).0, PersistPlan(pin, order, ids).0;
      if ms != before { assert ms[..|ms| - 1] == before; }
    }
  }

  ghost predicate BestFirst(ms: seq<Match>) {
    forall i, j :: 0 <= i < j < |ms| ==>
      ms[i].score >= ms[j].score && (ms[i].status == Overflow ==> ms[j].status == Overflow)
  }

  /** Over a ranked batch the room goes to the best hits: once one is held over, so are the rest. */
  lemma {:induction false} PersistSpendsOnBest(pin: PersistInput, order: seq<Scored>, ids: nat -> string)
    requires Descending(order)
    ensures var (ms, room) := PersistPlan(pin, order, ids);
            && BestFirst(ms)
            && (order != [] ==> forall i :: 0 <= i < |ms| ==> ms[i].score >= order[|order| - 1].total)
            && (forall i :: 0 <= i < |ms| && ms[i].status == Overflow ==> DayFull(pin.caps) || room == Some(0))
  {
    if order != [] { PersistSpendsOnBest(pin, order[..|order| - 1], ids); }
  }

  // ---- How far a batch can raise the weekly count ----

  /** The matches of a batch that would count against a candidate's week. */
  function Charges(ms: seq<Match>, candidate: string): nat {
    if ms == [] then 0
    else Charges(ms[..|ms| - 1], candidate)
         + (if ms[|ms| - 1].pair.candidate == candidate && ms[|ms| - 1].status != Overflow then 1 else 0)
  }

  lemma ChargesAfter(ms: seq<Match>, m: Match, candidate: string)
    ensures Charges(ms + [m], candidate) ==
            Charges(ms, candidate) + (if m.pair.candidate == candidate && m.status != Overflow then 1 else 0)
  {
    assert (ms + [m])[..|ms|] == ms;
  }

  lemma UpsertCharges(rows: Rows, m: Match, candidate: string, at: MatchTable.Time, now: MatchTable.Time)
    ensures |Billable(Upsert(rows, m, at), candidate, now)| <=
            |Billable(rows, candidate, now)| + (if m.pair.candidate == candidate && m.status != Overflow then 1 else 0)
  {
    var after := Billable(Upsert(rows, m, at), candidate, now);
    if m.pair.candidate == candidate && m.status != Overflow {
      SubsetSize(after, Billable(rows, candidate, now) + {m.pair});
    } else {
      SubsetSize(after, Billable(rows, candidate, now));
    }
  }

  lemma {:induction false} BatchCharges(rows: Rows, ms: seq<Match>, candidate: string, at: MatchTable.Time,
                                        now: MatchTable.Time)
    ensures |Billable(UpsertAll(rows, ms, at), candidate, now)|
            <= |Billable(rows, candidate, now)| + Charges(ms, candidate)
  {
    if ms != [] {
      BatchCharges(rows, ms[..|ms| - 1], candidate, at, now);
      UpsertCharges(UpsertAll(rows, ms[..|ms| - 1], at), ms[|ms| - 1], candidate, at, now);
    }
  }

  /** The window slides, so the count never grows by waiting. */
  lemma CountFallsWithTime(rows: Rows, candidate: string, now: MatchTable.Time, later: MatchTable.Time)
    requires now <= later
    ensures |Billable(rows, candidate, later)| <= |Billable(rows, candidate, now)|
  {
    SubsetSize(Billable(rows, candidate, later), Billable(rows, candidate, now));
  }

  lemma {:induction false} ChargesAtMost(ms: seq<Match>, candidate: string)
    ensures Charges(ms, candidate) <= |ms|
    ensures (forall i :: 0 <= i < |ms| ==> ms[i].pair.candidate != candidate) ==> Charges(ms, candidate) == 0
  {
    if ms != [] { ChargesAtMost(ms[..|ms| - 1], candidate); }
  }

  /** Every scored hit of a candidate carries the candidate's weekly cap. */
  ghost predicate CapKnown(scored: seq<(Candidate, real)>, id: string, cap: int) {
    forall i :: 0 <= i < |scored| ==> scored[i].0.id == id ==> scored[i].0.weeklyCap == cap
  }

  /** After planning, the weekly count carried for a candidate is what was read plus what the
      plan charges, and never passes the cap unless it started past it. */
  lemma {:induction false} FanPlanCharges(fan: FanInput, scored: seq<(Candidate, real)>, counters: Counters,
                                          ids: nat -> string, id: string, cap: int)
    requires counters.enforceWeekly && cap > 0 && id in counters.week
    requires CapKnown(scored, id, cap)
    ensures |FanPlan(scored, counters).0| == |scored|
    ensures var (statuses, used) := FanPlan(scored, counters);
            var charged := Charges(FanMatches(fan, scored, statuses, ids), id);
            && (charged > 0 ==> counters.week[id] + charged <= cap)
            && (if id in used then used[id] == counters.week[id] + charged else charged == 0)
  {
    if scored != [] {
      var init, last := scored[..|scored| - 1], scored[|scored| - 1];
      FanPlanCharges(fan, init, counters, ids, id, cap);
      FanPlanLength(scored, counters);
      var (before, used) := FanPlan(init, counters);
      var (status, used') := FanDecide(last.0, counters, used);
      var ms := FanMatches(fan, scored, before + [status], ids);
      assert ms[..|ms| - 1] == FanMatches(fan, init, before, ids);
      assert ms[|ms| - 1] == FanMatch(fan, last.0, last.1, status, ids(|init|));
    }
  }

  // ---- Serialised runs ----

  datatype Sys = Sys(now: MatchTable.Time, rows: Rows)

  /** `gap` is the time a run takes between counting and writing. */
  datatype Action =
    | Tick(elapsed: nat)
    | RunGapFill(input: GapInput, hits: seq<OpeningHit>, w: Weights, order: seq<Scored>, todayUsed: int,
                 ids: nat -> string, gap: nat)
    | RunFanOut(fan: FanInput, found: seq<CandidateHit>, w: Weights, counters: Counters, ids: nat -> string, gap: nat)
    | RunPersist(pin: PersistInput, offered: seq<Scored>, ranked: seq<Scored>, ids: nat -> string, gap: nat)
    | RecordApplication(pair: Pair)
    | RecordDismissal(pair: Pair)

  ghost predicate Mentions(scored: seq<(Candidate, real)>, id: string) {
    exists i :: 0 <= i < |scored| && scored[i].0.id == id
  }

  /** A row that an application or a dismissal would start to bill: held over the cap, and from this week. */
  predicate HeldOver(rows: Rows, p: Pair, now: MatchTable.Time) {
    p in rows && rows[p].status == Overflow && rows[p].createdAt > now - WEEK
  }

  /** Counters are wired and readable, the runs know the candidate's weekly cap, and the candidate
      acts on matches that were not held over. */
  ghost predicate Enabled(s: Sys, a: Action, candidate: string, cap: int) {
    match a
    case Tick(_) => true
    case RunGapFill(gap, hits, w, order, _, _, _) =>
      Ranked(order, GapScored(gap, hits, w, s.now)) && (gap.candidate.id == candidate ==> gap.weeklyCap == cap)
    case RunFanOut(fan, hits, w, counters, _, _) =>
      && counters.enforceWeekly
      && (candidate in counters.week ==> counters.week[candidate] == |Billable(s.rows, candidate, s.now)|)
      && (Mentions(FanScored(fan.opening, hits, w, s.now), candidate) ==> candidate in counters.week)
      && (forall i :: 0 <= i < |hits| && hits[i].candidate.id == candidate ==> hits[i].candidate.weeklyCap == cap)
    case RunPersist(pin, offered, ranked, _, _) =>
      && Ranked(ranked, offered)
      && (pin.candidate == candidate ==>
            && pin.caps.Some? && pin.caps.value.weeklyCap == cap
            && pin.caps.value.weekUsed == |Billable(s.rows, candidate, s.now)|)
    case RecordApplication(p) => p.candidate == candidate ==> !HeldOver(s.rows, p, s.now)
    case RecordDismissal(p) => p.candidate == candidate ==> !HeldOver(s.rows, p, s.now)
  }

  function Step(s: Sys, a: Action): Sys {
    match a
    case Tick(d) => s.(now := s.now + d)
    case RunGapFill(gap, _, _, order, todayUsed, ids, d) =>
      var weekUsed := |Billable(s.rows, gap.candidate.id, s.now)|;
      Sys(s.now + d, GapStep(s.rows, gap, order, weekUsed, todayUsed, ids, s.now + d))
    case RunFanOut(fan, hits, w, counters, ids, d) =>
      Sys(s.now + d, FanStep(s.rows, fan, FanScored(fan.opening, hits, w, s.now), counters, ids, s.now + d))
    case RunPersist(pin, _, ranked, ids, d) => Sys(s.now + d, PersistStep(s.rows, pin, ranked, ids, s.now + d))
    case RecordApplication(p) => s.(rows := MarkApplied(s.rows, p, s.now))
    case RecordDismissal(p) => s.(rows := Dismiss(s.rows, p))
  }

  lemma {:induction false} FanScoredCandidates(opening: Opening, hits: seq<CandidateHit>, w: Weights,
                                               now: MatchTable.Time, id: string, cap: int)
    requires forall i :: 0 <= i < |hits| && hits[i].candidate.id == id ==> hits[i].candidate.weeklyCap == cap
    ensures CapKnown(FanScored(opening, hits, w, now), id, cap)
  {
    if hits != [] {
      FanScoredCandidates(opening, hits[..|hits| - 1], w, now, id, cap);
      assert hits[|hits| - 1].candidate.id == id ==> hits[|hits| - 1].candidate.weeklyCap == cap;
    }
  }

  lemma GapFillKeepsCap(s: Sys, a: Action, candidate: string, cap: int)
    requires a.RunGapFill? && Enabled(s, a, candidate, cap) && cap > 0 && |Billable(s.rows, candidate, s.now)| <= cap
    ensures |Billable(Step(s, a).rows, candidate, Step(s, a).now)| <= cap
  {
    hide Billable, Ranked, GapScored, UpsertAll, Charges, GapMatch;
    var gap, at := a.input, s.now + a.gap;
    var weekUsed := |Billable(s.rows, gap.candidate.id, s.now)|;
    var kept := GapKept(gap, a.order, weekUsed, a.todayUsed);
    var ms := GapMatches(gap, kept, a.todayUsed, a.ids);
    BatchCharges(s.rows, ms, candidate, at, at);
    CountFallsWithTime(s.rows, candidate, s.now, at);
    ChargesAtMost(ms, candidate);
    if gap.candidate.id == candidate {
      assert |ms| == |kept| <= cap - weekUsed;
    } else {
      GapMatchesOwn(gap, kept, a.todayUsed, a.ids);
    }
  }

  lemma FanOutKeepsCap(s: Sys, a: Action, candidate: string, cap: int)
    requires a.RunFanOut? && Enabled(s, a, candidate, cap) && cap > 0 && |Billable(s.rows, candidate, s.now)| <= cap
    ensures |Billable(Step(s, a).rows, candidate, Step(s, a).now)| <= cap
  {
    hide Billable, FanScored, UpsertAll, Charges;
    var at, scored := s.now + a.gap, FanScored(a.fan.opening, a.found, a.w, s.now);
    FanScoredCandidates(a.fan.opening, a.found, a.w, s.now, candidate, cap);
    FanPlanLength(scored, a.counters);
    var ms := FanMatches(a.fan, scored, FanPlan(scored, a.counters).0, a.ids);
    if candidate in a.counters.week {
      FanPlanCharges(a.fan, scored, a.counters, a.ids, candidate, cap);
    } else {
      forall i | 0 <= i < |ms| ensures ms[i].pair.candidate != candidate {
        assert ms[i] == FanMatch(a.fan, scored[i].0, scored[i].1, FanPlan(scored, a.counters).0[i], a.ids(i));
      }
      ChargesAtMost(ms, candidate);
    }
    BatchCharges(s.rows, ms, candidate, at, at);
    CountFallsWithTime(s.rows, candidate, s.now, at);
  }

  lemma PersistKeepsCap(s: Sys, a: Action, candidate: string, cap: int)
    requires a.RunPersist? && Enabled(s, a, candidate, cap) && cap > 0 && |Billable(s.rows, candidate, s.now)| <= cap
    ensures |Billable(Step(s, a).rows, candidate, Step(s, a).now)| <= cap
  {
    hide Billable, Ranked, UpsertAll, Charges, PersistPlan;
    var at, ms := s.now + a.gap, PersistPlan(a.pin, a.ranked, a.ids).0;
    PersistCharges(a.pin, a.ranked, a.ids);
    BatchCharges(s.rows, ms, candidate, at, at);
    CountFallsWithTime(s.rows, candidate, s.now, at);
    if a.pin.candidate == candidate {
      assert Charges(ms, candidate) <= cap - |Billable(s.rows, candidate, s.now)|;
    } else {
      forall i | 0 <= i < |ms| ensures ms[i].pair.candidate != candidate {
        assert ms[i] in ms;
      }
      ChargesAtMost(ms, candidate);
    }
  }

  lemma AnswerKeepsCap(s: Sys, a: Action, candidate: string, cap: int)
    requires (a.RecordApplication? || a.RecordDismissal?) && Enabled(s, a, candidate, cap)
    requires |Billable(s.rows, candidate, s.now)| <= cap
    ensures |Billable(Step(s, a).rows, candidate, Step(s, a).now)| <= cap
  {
    hide Billable;
    AnswerBills(s.rows, a.pair, candidate, s.now, s.now);
  }

  datatype Trace = Trace(states: seq<Sys>, acts: seq<Action>)

  ghost predicate Run(tr: Trace, candidate: string, cap: int) {
    && |tr.states| == |tr.acts| + 1
    && forall i :: 0 <= i < |tr.acts| ==>
         Enabled(tr.states[i], tr.acts[i], candidate, cap) && tr.states[i + 1] == Step(tr.states[i], tr.acts[i])
  }

  lemma AnswerBills(rows: Rows, p: Pair, candidate: string, at: MatchTable.Time, now: MatchTable.Time)
    ensures var more := if p.candidate == candidate && HeldOver(rows, p, now) then {p} else {};
            && Billable(MarkApplied(rows, p, at), candidate, now) == Billable(rows, candidate, now) + more
            && Billable(Dismiss(rows, p), candidate, now) == Billable(rows, candidate, now) + more
  {
  }

  /** Over any serialised run of fan-outs, gap-fills, on-demand batches, applications and dismissals
      the matches billed to a candidate in the trailing week never exceed the plan's weekly cap, if
      they start within it. */
  lemma {:induction false} WeeklyCapHolds(tr: Trace, candidate: string, cap: int, k: nat)
    requires Run(tr, candidate, cap) && cap > 0 && k < |tr.states|
    requires |Billable(tr.states[0].rows, candidate, tr.states[0].now)| <= cap
    ensures |Billable(tr.states[k].rows, candidate, tr.states[k].now)| <= cap
  {
    if k > 0 {
      hide Billable, Enabled;
      WeeklyCapHolds(tr, candidate, cap, k - 1);
      var s, a := tr.states[k - 1], tr.acts[k - 1];
      match a
      case Tick(d) => CountFallsWithTime(s.rows, candidate, s.now, s.now + d);
      case RunGapFill(_, _, _, _, _, _, _) => GapFillKeepsCap(s, a, candidate, cap);
      case RunFanOut(_, _, _, _, _, _) => FanOutKeepsCap(s, a, candidate, cap);
      case RunPersist(_, _, _, _, _) => PersistKeepsCap(s, a, candidate, cap);
      case RecordApplication(_) => AnswerKeepsCap(s, a, candidate, cap);
      case RecordDismissal(_) => AnswerKeepsCap(s, a, candidate, cap);
    }
  }

  /** Applying to or dismissing an overflow row makes it billable: either raises the weekly count
      exactly when the row was held over this week. */
  lemma AnswerBillsIff(rows: Rows, p: Pair, at: MatchTable.Time, now: MatchTable.Time)
    ensures |Billable(MarkApplied(rows, p, at), p.candidate, now)| > |Billable(rows, p.candidate, now)|
            <==> HeldOver(rows, p, now)
    ensures |Billable(Dismiss(rows, p), p.candidate, now)| > |Billable(rows, p.candidate, now)|
            <==> HeldOver(rows, p, now)
  {
    AnswerBills(rows, p, p.candidate, at, now);
    if HeldOver(rows, p, now) {
      assert p !in Billable(rows, p.candidate, now);
    }
  }
}
