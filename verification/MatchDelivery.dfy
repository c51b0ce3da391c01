/**
  Which hits reach the table: exactly those that clear the threshold, within the caps, at their own
  score. Stated on the hits and the table, for every ranking and every reading of the counters.
 */
module MatchDelivery {
  import opened Prelude
  import opened Scoring
  import opened MatchTable
  import opened MatchCaps
  import opened MatchBudget

  // ---- Batches ----

  /** A pair that a batch brings into the table has the score of one of its matches there. */
  lemma {:induction false} BatchScore(rows: Rows, ms: seq<Match>, at: MatchTable.Time, p: Pair)
    requires p !in rows && p in UpsertAll(rows, ms, at)
    ensures exists j :: 0 <= j < |ms| && ms[j].pair == p && ms[j].score == UpsertAll(rows, ms, at)[p].score
  {
    var init, m := ms[..|ms| - 1], ms[|ms| - 1];
    if p in UpsertAll(rows, init, at) {
      BatchScore(rows, init, at, p);
      var j :| 0 <= j < |init| && init[j].pair == p && init[j].score == UpsertAll(rows, init, at)[p].score;
      assert ms[j] == init[j];
    }
    assert ms[|init|] == m;
  }

  lemma BatchHolds(rows: Rows, ms: seq<Match>, at: MatchTable.Time, j: nat)
    requires j < |ms|
    ensures ms[j].pair in UpsertAll(rows, ms, at)
  {
    BatchKeys(rows, ms, at, ms[j].pair);
  }

  // ---- Gap-fill ----

  /** One of the hits is this opportunity, at this score, and clears the candidate's threshold. */
  predicate FromHit(gap: GapInput, hits: seq<OpeningHit>, w: Weights, now: MatchTable.Time, id: string, score: real) {
    exists i :: 0 <= i < |hits| && IsHit(gap, hits[i], w, now, id, score)
  }

  predicate IsHit(gap: GapInput, h: OpeningHit, w: Weights, now: MatchTable.Time, id: string, score: real) {
    h.opening.id == id && GapTotal(gap.candidate, h.opening, h.distance, w, now) == score && score >= gap.minScore
  }

  lemma {:induction false} GapScoredHolds(gap: GapInput, hits: seq<OpeningHit>, w: Weights, now: MatchTable.Time,
                                          s: Scored)
    ensures s in GapScored(gap, hits, w, now) <==> FromHit(gap, hits, w, now, s.id, s.total)
  {
    hide GapTotal;
    if hits != [] {
      var init, h := hits[..|hits| - 1], hits[|hits| - 1];
      GapScoredHolds(gap, init, w, now, s);
      assert FromHit(gap, hits, w, now, s.id, s.total) <==>
             FromHit(gap, init, w, now, s.id, s.total) || IsHit(gap, h, w, now, s.id, s.total) by {
        assert forall i :: 0 <= i < |init| ==> init[i] == hits[i];
      }
    }
  }

  lemma RankedMembers(order: seq<Scored>, hits: seq<Scored>, s: Scored)
    requires Ranked(order, hits)
    ensures s in order <==> s in hits
  {
    assert s in multiset(order) <==> s in multiset(hits);
  }

  /** Every pair a gap-fill brings into the table is one of its hits, at that hit's score, which
      clears the threshold. */
  lemma GapFillDeliversOnlyHits(rows: Rows, gap: GapInput, hits: seq<OpeningHit>, w: Weights, now: MatchTable.Time,
                                order: seq<Scored>, weekUsed: int, todayUsed: int, ids: nat -> string,
                                at: MatchTable.Time, p: Pair)
    requires Ranked(order, GapScored(gap, hits, w, now))
    requires p !in rows && p in GapStep(rows, gap, order, weekUsed, todayUsed, ids, at)
    ensures p.candidate == gap.candidate.id
    ensures FromHit(gap, hits, w, now, p.opportunity, GapStep(rows, gap, order, weekUsed, todayUsed, ids, at)[p].score)
  {
    hide GapScored, FromHit, UpsertAll;
    var kept := GapKept(gap, order, weekUsed, todayUsed);
    var ms := GapMatches(gap, kept, todayUsed, ids);
    BatchScore(rows, ms, at, p);
    var j :| 0 <= j < |ms| && ms[j].pair == p && ms[j].score == UpsertAll(rows, ms, at)[p].score;
    assert ms[j] == GapMatch(gap, kept[j], GapStatus(gap, todayUsed, j), ids(j));
    assert kept[j] in order;
    RankedMembers(order, GapScored(gap, hits, w, now), kept[j]);
    GapScoredHolds(gap, hits, w, now, kept[j]);
  }

  /** With both caps off every hit that clears the threshold is in the table afterwards. */
  lemma UncappedGapFillDeliversAll(rows: Rows, gap: GapInput, hits: seq<OpeningHit>, w: Weights, now: MatchTable.Time,
                                   order: seq<Scored>, weekUsed: int, todayUsed: int, ids: nat -> string,
                                   at: MatchTable.Time, i: nat)
    requires Ranked(order, GapScored(gap, hits, w, now)) && gap.weeklyCap <= 0 && gap.dailyCap <= 0 && i < |hits|
    requires GapTotal(gap.candidate, hits[i].opening, hits[i].distance, w, now) >= gap.minScore
    ensures Pair(gap.candidate.id, hits[i].opening.id) in GapStep(rows, gap, order, weekUsed, todayUsed, ids, at)
  {
    hide GapScored, UpsertAll, GapTotal;
    var s := Scored(hits[i].opening.id, GapTotal(gap.candidate, hits[i].opening, hits[i].distance, w, now));
    assert IsHit(gap, hits[i], w, now, s.id, s.total);
    GapScoredHolds(gap, hits, w, now, s);
    RankedMembers(order, GapScored(gap, hits, w, now), s);
    var j :| 0 <= j < |order| && order[j] == s;
    var ms := GapMatches(gap, order, todayUsed, ids);
    assert ms[j] == GapMatch(gap, order[j], GapStatus(gap, todayUsed, j), ids(j));
    BatchHolds(rows, ms, at, j);
  }

  /** A gap-fill says that nothing cleared the threshold only when no hit did. */
  lemma BelowThresholdIsTrue(gap: GapInput, hits: seq<OpeningHit>, w: Weights, now: MatchTable.Time, order: seq<Scored>,
                             weekUsed: int, todayUsed: int, ids: nat -> string, i: nat)
    requires Ranked(order, GapScored(gap, hits, w, now)) && todayUsed >= 0 && i < |hits|
    requires var ms := GapMatches(gap, GapKept(gap, order, weekUsed, todayUsed), todayUsed, ids);
             var r := Reported(gap, |hits|, order, weekUsed, todayUsed, Charges(ms, gap.candidate.id));
             r.reason == BelowThreshold
    ensures GapTotal(gap.candidate, hits[i].opening, hits[i].distance, w, now) < gap.minScore
  {
    hide GapScored, GapTotal, Reported, Ranked, GapKept;
    var s := Scored(hits[i].opening.id, GapTotal(gap.candidate, hits[i].opening, hits[i].distance, w, now));
    assert s.total >= gap.minScore ==> IsHit(gap, hits[i], w, now, s.id, s.total);
    GapScoredHolds(gap, hits, w, now, s);
    ReasonsHold(gap, hits, w, now, order, weekUsed, todayUsed, ids);
  }

  lemma {:induction false} StatusCounts(gap: GapInput, ms: seq<Match>, todayUsed: int)
    requires forall i :: 0 <= i < |ms| ==>
               ms[i].pair.candidate == gap.candidate.id && ms[i].status == GapStatus(gap, todayUsed, i)
    ensures Charges(ms, gap.candidate.id) ==
            if gap.dailyCap > 0 then Min(|ms|, Max(gap.dailyCap - todayUsed, 0)) else |ms|
  {
    if ms != [] { StatusCounts(gap, ms[..|ms| - 1], todayUsed); }
  }

  /** A gap-fill spends its budgets to the full: it keeps as many of the best hits as the week has
      room for, and of those it delivers as many as the day has room for and holds over the rest. */
  lemma GapFillSpendsItsBudgets(gap: GapInput, order: seq<Scored>, weekUsed: int, todayUsed: int, ids: nat -> string)
    ensures var kept := GapKept(gap, order, weekUsed, todayUsed);
            var week := if gap.weeklyCap > 0 then Max(gap.weeklyCap - weekUsed, 0) else |order|;
            var day := if gap.dailyCap > 0 then Max(gap.dailyCap - todayUsed, 0) else |order|;
            && |kept| == (if day == 0 then 0 else Min(|order|, week))
            && Charges(GapMatches(gap, kept, todayUsed, ids), gap.candidate.id) == Min(Min(|order|, week), day)
  {
    var kept := GapKept(gap, order, weekUsed, todayUsed);
    var ms := GapMatches(gap, kept, todayUsed, ids);
    GapMatchesOwn(gap, kept, todayUsed, ids);
    StatusCounts(gap, ms, todayUsed);
  }

  /** Every match a gap-fill or a fan-out writes carries its run, its fresh id, and the reranker's
      score exactly when the reranker gave one. */
  lemma MatchesCarryTheRun(gap: GapInput, kept: seq<Scored>, todayUsed: int, fan: FanInput,
                           scored: seq<(Candidate, real)>, statuses: seq<Status>, ids: nat -> string, i: nat)
    requires |scored| == |statuses|
    ensures i < |kept| ==>
              var m := GapMatches(gap, kept, todayUsed, ids)[i];
              && m.pair == Pair(gap.candidate.id, kept[i].id) && m.score == kept[i].total
              && m.lastEventId == gap.runId && m.matchId == ids(i) && m.metadata == map["path" := "gap"]
              && (m.rerankerUsed <==> kept[i].id in gap.rerank) && (m.rerank.Some? <==> kept[i].id in gap.rerank)
              && (kept[i].id in gap.rerank ==> m.rerank == Some(gap.rerank[kept[i].id]))
    ensures i < |scored| ==>
              var m, c := FanMatches(fan, scored, statuses, ids)[i], scored[i].0;
              && m.pair == Pair(c.id, fan.opening.id) && m.score == scored[i].1 && m.status == statuses[i]
              && m.lastEventId == fan.runId && m.matchId == ids(i)
              && (m.rerankerUsed <==> c.id in fan.rerank) && (m.rerank.Some? <==> c.id in fan.rerank)
              && (c.id in fan.rerank ==> m.rerank == Some(fan.rerank[c.id]))
  {
    if i < |kept| {
      assert GapMatches(gap, kept, todayUsed, ids)[i] == GapMatch(gap, kept[i], GapStatus(gap, todayUsed, i), ids(i));
    }
    if i < |scored| {
      assert FanMatches(fan, scored, statuses, ids)[i] == FanMatch(fan, scored[i].0, scored[i].1, statuses[i], ids(i));
    }
  }

  // ---- Fan-out ----

  /** One of the hits is this candidate, at this score, and clears the candidate's own threshold. */
  predicate FromCandidate(o: Opening, hits: seq<CandidateHit>, w: Weights, now: MatchTable.Time, id: string,
                          score: real) {
    exists i :: 0 <= i < |hits| && IsCandidate(o, hits[i], w, now, id, score)
  }

  predicate IsCandidate(o: Opening, h: CandidateHit, w: Weights, now: MatchTable.Time, id: string, score: real) {
    h.candidate.id == id && FanTotal(h.candidate, o, h.distance, w, now) == score && score >= h.candidate.minScore
  }

  predicate ScoredAs(scored: seq<(Candidate, real)>, id: string, score: real) {
    exists i :: 0 <= i < |scored| && scored[i].0.id == id && scored[i].1 == score
  }

  lemma {:induction false} FanScoredHolds(o: Opening, hits: seq<CandidateHit>, w: Weights, now: MatchTable.Time,
                                          id: string, score: real)
    ensures ScoredAs(FanScored(o, hits, w, now), id, score) <==> FromCandidate(o, hits, w, now, id, score)
  {
    hide FanTotal;
    if hits != [] {
      var init, h := hits[..|hits| - 1], hits[|hits| - 1];
      FanScoredHolds(o, init, w, now, id, score);
      assert FromCandidate(o, hits, w, now, id, score) <==>
             FromCandidate(o, init, w, now, id, score) || IsCandidate(o, h, w, now, id, score) by {
        assert forall i :: 0 <= i < |init| ==> init[i] == hits[i];
      }
      var before, total := FanScored(o, init, w, now), FanTotal(h.candidate, o, h.distance, w, now);
      ScoredAsAfter(before, h.candidate, total, id, score);
    }
  }

  lemma ScoredAsAfter(scored: seq<(Candidate, real)>, c: Candidate, total: real, id: string, score: real)
    ensures ScoredAs(scored + [(c, total)], id, score)
            <==> ScoredAs(scored, id, score) || (c.id == id && total == score)
  {
    var all := scored + [(c, total)];
    assert all[|scored|] == (c, total) && forall i :: 0 <= i < |scored| ==> all[i] == scored[i];
  }

  /** Every pair a fan-out brings into the table is one of its hits, at that hit's score, which clears
      the candidate's threshold. */
  lemma FanOutDeliversOnlyHits(rows: Rows, fan: FanInput, hits: seq<CandidateHit>, w: Weights, now: MatchTable.Time,
                               counters: Counters, ids: nat -> string, at: MatchTable.Time, p: Pair)
    requires p !in rows && p in FanStep(rows, fan, FanScored(fan.opening, hits, w, now), counters, ids, at)
    ensures var after := FanStep(rows, fan, FanScored(fan.opening, hits, w, now), counters, ids, at);
            p.opportunity == fan.opening.id && FromCandidate(fan.opening, hits, w, now, p.candidate, after[p].score)
  {
    hide FanScored, FromCandidate, UpsertAll, FanPlan;
    var scored := FanScored(fan.opening, hits, w, now);
    FanPlanLength(scored, counters);
    var ms := FanMatches(fan, scored, FanPlan(scored, counters).0, ids);
    BatchScore(rows, ms, at, p);
    var j :| 0 <= j < |ms| && ms[j].pair == p && ms[j].score == UpsertAll(rows, ms, at)[p].score;
    assert ms[j] == FanMatch(fan, scored[j].0, scored[j].1, FanPlan(scored, counters).0[j], ids(j));
    FanScoredHolds(fan.opening, hits, w, now, p.candidate, ms[j].score);
  }

  /** And every hit that clears its candidate's threshold is in the table afterwards, delivered or
      held over. */
  lemma FanOutReachesAll(rows: Rows, fan: FanInput, hits: seq<CandidateHit>, w: Weights, now: MatchTable.Time,
                         counters: Counters, ids: nat -> string, at: MatchTable.Time, i: nat)
    requires i < |hits|
    requires FanTotal(hits[i].candidate, fan.opening, hits[i].distance, w, now) >= hits[i].candidate.minScore
    ensures Pair(hits[i].candidate.id, fan.opening.id)
            in FanStep(rows, fan, FanScored(fan.opening, hits, w, now), counters, ids, at)
  {
    hide FanScored, UpsertAll, FanTotal, FanPlan;
    var scored, c := FanScored(fan.opening, hits, w, now), hits[i].candidate;
    var score := FanTotal(c, fan.opening, hits[i].distance, w, now);
    assert IsCandidate(fan.opening, hits[i], w, now, c.id, score);
    FanScoredHolds(fan.opening, hits, w, now, c.id, score);
    var j :| 0 <= j < |scored| && scored[j].0.id == c.id && scored[j].1 == score;
    FanPlanLength(scored, counters);
    var ms := FanMatches(fan, scored, FanPlan(scored, counters).0, ids);
    assert ms[j] == FanMatch(fan, scored[j].0, scored[j].1, FanPlan(scored, counters).0[j], ids(j));
    BatchHolds(rows, ms, at, j);
  }

  /** How much of a candidate's week the plan has spent before a hit. */
  function Spent(scored: seq<(Candidate, real)>, statuses: seq<Status>, id: string, n: nat): nat
    requires n <= |scored| == |statuses|
  {
    if n == 0 then 0
    else Spent(scored, statuses, id, n - 1)
         + (if scored[n - 1].0.id == id && scored[n - 1].0.weeklyCap > 0 && statuses[n - 1] == New then 1 else 0)
  }

  function Reading(counters: Counters, id: string): int { if id in counters.week then counters.week[id] else 0 }

  /** The day is spent, or the week with what the plan has spent of it. */
  predicate NoRoom(c: Candidate, counters: Counters, spent: nat) {
    || (c.dailyCap > 0 && c.id in counters.today && counters.today[c.id] >= c.dailyCap)
    || (counters.enforceWeekly && c.weeklyCap > 0 && Reading(counters, c.id) + spent >= c.weeklyCap)
  }

  lemma {:induction false} SpentPrefix(scored: seq<(Candidate, real)>, statuses: seq<Status>, last: (Candidate, real),
                                       status: Status, id: string, n: nat)
    requires n <= |scored| == |statuses|
    ensures Spent(scored + [last], statuses + [status], id, n) == Spent(scored, statuses, id, n)
  {
    if n > 0 { SpentPrefix(scored, statuses, last, status, id, n - 1); }
  }

  ghost predicate Carries(used: map<string, int>, counters: Counters, scored: seq<(Candidate, real)>,
                          statuses: seq<Status>, id: string)
    requires |scored| == |statuses|
  {
    counters.enforceWeekly ==>
      if id in used then used[id] == Reading(counters, id) + Spent(scored, statuses, id, |scored|)
      else Spent(scored, statuses, id, |scored|) == 0
  }

  lemma {:induction false} PlanCarries(scored: seq<(Candidate, real)>, counters: Counters, id: string)
    ensures |FanPlan(scored, counters).0| == |scored|
    ensures Carries(FanPlan(scored, counters).1, counters, scored, FanPlan(scored, counters).0, id)
  {
    FanPlanLength(scored, counters);
    if scored != [] {
      var init, last := scored[..|scored| - 1], scored[|scored| - 1];
      assert scored == init + [last];
      FanPlanLength(init, counters);
      var (before, used) := FanPlan(init, counters);
      var (status, _) := FanDecide(last.0, counters, used);
      PlanCarries(init, counters, id);
      SpentPrefix(init, before, last, status, id, |init|);
    }
  }

  /** A fan-out holds a hit over exactly when its candidate's day is spent, or the week it read
      together with what it planned for the same candidate before; every other hit is new. */
  lemma {:induction false} FanOutHoldsOverIff(scored: seq<(Candidate, real)>, counters: Counters, n: nat)
    requires n < |scored|
    ensures |FanPlan(scored, counters).0| == |scored|
    ensures var statuses := FanPlan(scored, counters).0;
            && (statuses[n] == Overflow <==> NoRoom(scored[n].0, counters, Spent(scored, statuses, scored[n].0.id, n)))
            && (statuses[n] == New || statuses[n] == Overflow)
  {
    var init, last := scored[..|scored| - 1], scored[|scored| - 1];
    assert scored == init + [last];
    FanPlanLength(init, counters);
    var (before, used) := FanPlan(init, counters);
    var (status, used') := FanDecide(last.0, counters, used);
    assert FanPlan(scored, counters) == (before + [status], used');
    if n < |init| {
      FanOutHoldsOverIff(init, counters, n);
      SpentPrefix(init, before, last, status, scored[n].0.id, n);
    } else {
      PlanCarries(init, counters, last.0.id);
      SpentPrefix(init, before, last, status, last.0.id, |init|);
    }
  }

  // ---- On-demand batches ----

  /** An on-demand batch delivers as many of its named hits as the week has room for, none on a day
      that is spent, and all of them when the caller sets no caps. */
  lemma {:induction false} PersistSpendsItsBudget(pin: PersistInput, order: seq<Scored>, ids: nat -> string)
    ensures var ms := PersistPlan(pin, order, ids).0;
            Charges(ms, pin.candidate) ==
              if pin.caps.None? then |ms|
              else if pin.caps.value.dailyCap > 0 && pin.caps.value.dayUsed >= pin.caps.value.dailyCap then 0
              else if pin.caps.value.weeklyCap <= 0 then |ms|
              else Min(|ms|, Max(pin.caps.value.weeklyCap - pin.caps.value.weekUsed, 0))
  {
    if order == [] {
      assert Charges([], pin.candidate) == 0;
    } else {
      hide Charges;
      var init, h := order[..|order| - 1], order[|order| - 1];
      PersistSpendsItsBudget(pin, init, ids);
      PersistCharges(pin, init, ids);
      var (before, room) := PersistPlan(pin, init, ids);
      var status := if DayFull(pin.caps) || room == Some(0) then Overflow else New;
      var m := PersistMatch(pin, h, status, ids(|before|));
      ChargesAfter(before, m, pin.candidate);
      assert RoomLeft(pin.caps).None? ==> PersistPlan(pin, order, ids).1.None? && room.None? by {
        NoRoomToTrack(pin, init, ids);
        NoRoomToTrack(pin, order, ids);
      }
      assert PersistPlan(pin, order, ids).0 == if h.id == "" then before else before + [m];
    }
  }

  lemma {:induction false} NoRoomToTrack(pin: PersistInput, order: seq<Scored>, ids: nat -> string)
    ensures RoomLeft(pin.caps).None? ==> PersistPlan(pin, order, ids).1.None?
  {
    if order != [] { NoRoomToTrack(pin, order[..|order| - 1], ids); }
  }

  /** Every hit of an on-demand batch that names an opportunity becomes a match of the candidate at
      its own score, and nothing else does. */
  lemma {:induction false} PersistPlansEveryHit(pin: PersistInput, order: seq<Scored>, ids: nat -> string, id: string,
                                                score: real)
    ensures (exists m :: m in PersistPlan(pin, order, ids).0 && m.pair == Pair(pin.candidate, id) && m.score == score)
            <==> Scored(id, score) in order && id != ""
  {
    if order != [] {
      var init, h := order[..|order| - 1], order[|order| - 1];
      PersistPlansEveryHit(pin, init, ids, id, score);
      assert order == init + [h];
      var before, ms := PersistPlan(pin, init, ids).0, PersistPlan(pin, order, ids).0;
      if h.id != "" {
        var m := ms[|before|];
        assert ms == before + [m] && m.pair == Pair(pin.candidate, h.id) && m.score == h.total && m in ms;
        assert forall x :: x in ms <==> x in before || x == m;
      }
    }
  }
}
