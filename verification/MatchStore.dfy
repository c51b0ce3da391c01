/** Match generation as the source runs it: loops over hits, a sort, counters, table writes. */
module MatchStore {
  import opened Prelude
  import opened FrontierBackoff
  import opened Scoring
  import opened MatchTable
  import opened MatchCaps
  import opened MatchDelivery

  lemma InsertedKeepsItems(sorted: seq<Scored>, s: Scored, i: nat)
    requires i <= |sorted|
    ensures multiset(sorted[..i] + [s] + sorted[i..]) == multiset(sorted + [s])
  {
    assert sorted == sorted[..i] + sorted[i..];
  }

  lemma InsertedKeepsOrder(sorted: seq<Scored>, s: Scored, i: nat)
    requires Descending(sorted) && i <= |sorted|
    requires forall j :: 0 <= j < i ==> sorted[j].total >= s.total
    requires forall j :: i <= j < |sorted| ==> sorted[j].total <= s.total
    ensures Descending(sorted[..i] + [s] + sorted[i..])
  {
    var r := sorted[..i] + [s] + sorted[i..];
    assert forall j :: 0 <= j < |r| ==> r[j] == if j < i then sorted[j] else if j == i then s else sorted[j - 1];
  }

  /** Inserts a hit into a descending list. */
  method InsertByScore(sorted: seq<Scored>, s: Scored) returns (r: seq<Scored>)
    requires Descending(sorted)
    ensures Ranked(r, sorted + [s])
  {
    var i := |sorted|;
    while i > 0 && sorted[i - 1].total < s.total
      invariant 0 <= i <= |sorted|
      invariant forall j :: i <= j < |sorted| ==> sorted[j].total < s.total
    {
      i := i - 1;
    }
    InsertedKeepsItems(sorted, s, i);
    InsertedKeepsOrder(sorted, s, i);
    r := sorted[..i] + [s] + sorted[i..];
  }

  method SortByScore(hits: seq<Scored>) returns (order: seq<Scored>)
    ensures Ranked(order, hits)
  {
    order := [];
    for k := 0 to |hits|
      invariant Ranked(order, hits[..k])
    {
      var next := InsertByScore(order, hits[k]);
      assert hits[..k + 1] == hits[..k] + [hits[k]];
      order := next;
    }
    assert hits[..|hits|] == hits;
  }

  class Store {
    var rows: Rows

    constructor ()
      ensures rows == map[]
    {
      rows := map[];
    }

    method UpsertMatch(m: Match, now: MatchTable.Time) returns (inserted: bool)
      modifies this
      ensures rows == Upsert(old(rows), m, now)
      ensures inserted <==> m.pair !in old(rows)
    {
      inserted := m.pair !in rows;
      if inserted {
        rows := rows[m.pair := Inserted(m, now)];
      } else {
        var r := rows[m.pair];
        if r.status == New && m.score > r.score { rows := rows[m.pair := Raised(r, m)]; }
      }
    }

    method UpsertMatches(ms: seq<Match>, now: MatchTable.Time)
      modifies this
      ensures rows == UpsertAll(old(rows), ms, now)
    {
      for i := 0 to |ms|
        invariant rows == UpsertAll(old(rows), ms[..i], now)
      {
        assert ms[..i + 1][..i] == ms[..i];
        var _ := UpsertMatch(ms[i], now);
      }
      assert ms[..|ms|] == ms;
    }

    method RecordApplied(p: Pair, now: MatchTable.Time)
      modifies this
      ensures rows == MarkApplied(old(rows), p, now)
      ensures rows.Keys == old(rows).Keys && forall q :: q in rows && q != p ==> rows[q] == old(rows)[q]
      ensures p in rows ==> Succeeds(old(rows)[p], rows[p]) && rows[p].score == old(rows)[p].score
    {
      if p in rows && rows[p].status != Dismissed {
        var since := if rows[p].appliedAt.None? then Some(now) else rows[p].appliedAt;
        rows := rows[p := rows[p].(status := Applied, appliedAt := since)];
      }
    }

    method RecordDismissed(p: Pair)
      modifies this
      ensures rows == Dismiss(old(rows), p)
      ensures rows.Keys == old(rows).Keys && forall q :: q in rows && q != p ==> rows[q] == old(rows)[q]
      ensures p in rows ==> Succeeds(old(rows)[p], rows[p]) && rows[p].score == old(rows)[p].score
    {
      if p in rows && rows[p].status != Dismissed { rows := rows[p := rows[p].(status := Dismissed)]; }
    }

    method CountNonOverflowThisWeek(candidate: string, now: MatchTable.Time) returns (n: nat)
      ensures n == |Billable(rows, candidate, now)|
      ensures n == |set p | p in rows && p.candidate == candidate && rows[p].status != Overflow
                            && now - rows[p].createdAt < 7 * 86_400 * SECOND|
    {
      n := 0;
      var todo := rows.Keys;
      ghost var counted: set<Pair> := {};
      while todo != {}
        invariant todo <= rows.Keys && n == |counted|
        invariant counted == set p | p in Billable(rows, candidate, now) && p !in todo
        decreases |todo|
      {
        var p :| p in todo;
        if p.candidate == candidate && rows[p].status != Overflow && rows[p].createdAt > now - WEEK {
          n := n + 1;
          counted := counted + {p};
        }
        todo := todo - {p};
      }
      assert counted == Billable(rows, candidate, now);
      assert counted == set p | p in rows && p.candidate == candidate && rows[p].status != Overflow
                                && now - rows[p].createdAt < 7 * 86_400 * SECOND;
    }

    method ScoreOpenings(gap: GapInput, hits: seq<OpeningHit>, w: Weights, now: MatchTable.Time)
      returns (scored: seq<Scored>)
      ensures scored == GapScored(gap, hits, w, now)
    {
      scored := [];
      for i := 0 to |hits|
        invariant scored == GapScored(gap, hits[..i], w, now)
      {
        assert hits[..i + 1][..i] == hits[..i];
        var total := GapTotal(gap.candidate, hits[i].opening, hits[i].distance, w, now);
        if total >= gap.minScore { scored := scored + [Scored(hits[i].opening.id, total)]; }
      }
      assert hits[..|hits|] == hits;
    }

    /** `countWeek` says whether the weekly counter is wired; `today` is today's count when its
        counter is wired and readable. */
    method GapFill(gap: GapInput, hits: seq<OpeningHit>, w: Weights, countWeek: bool, today: Option<int>,
                   ids: nat -> string, countAt: MatchTable.Time, writeAt: MatchTable.Time)
      returns (report: GapReport, order: seq<Scored>)
      modifies this
      ensures Ranked(order, GapScored(gap, hits, w, countAt))
      ensures var counted := |Billable(old(rows), gap.candidate.id, countAt)|;
              var weekUsed := if gap.weeklyCap > 0 && countWeek then counted else 0;
              var todayUsed := if today.Some? && gap.dailyCap > 0 then today.value else 0;
              && rows == GapStep(old(rows), gap, order, weekUsed, todayUsed, ids, writeAt)
              && var ms := GapMatches(gap, GapKept(gap, order, weekUsed, todayUsed), todayUsed, ids);
                 report == Reported(gap, |hits|, order, weekUsed, todayUsed, Charges(ms, gap.candidate.id))
      // what is new in the table is a hit over the threshold, and without caps no such hit is missing
      ensures forall p :: p in rows && p !in old(rows) ==>
                p.candidate == gap.candidate.id && FromHit(gap, hits, w, countAt, p.opportunity, rows[p].score)
      ensures gap.weeklyCap <= 0 && gap.dailyCap <= 0 ==>
                forall h :: h in hits
                            && GapTotal(gap.candidate, h.opening, h.distance, w, countAt) >= gap.minScore ==>
                  Pair(gap.candidate.id, h.opening.id) in rows
    {
      report, order := RunGapFill(gap, hits, w, countWeek, today, ids, countAt, writeAt);
      hide GapStep, Reported, GapScored, Ranked, FromHit, GapTotal, Billable;
      ghost var counted := |Billable(old(rows), gap.candidate.id, countAt)|;
      ghost var weekUsed := if gap.weeklyCap > 0 && countWeek then counted else 0;
      ghost var todayUsed := if today.Some? && gap.dailyCap > 0 then today.value else 0;
      forall p | p in rows && p !in old(rows)
        ensures p.candidate == gap.candidate.id && FromHit(gap, hits, w, countAt, p.opportunity, rows[p].score)
      {
        GapFillDeliversOnlyHits(old(rows), gap, hits, w, countAt, order, weekUsed, todayUsed, ids, writeAt, p);
      }
      if gap.weeklyCap <= 0 && gap.dailyCap <= 0 {
        forall h | h in hits && GapTotal(gap.candidate, h.opening, h.distance, w, countAt) >= gap.minScore
          ensures Pair(gap.candidate.id, h.opening.id) in rows
        {
          var i :| 0 <= i < |hits| && hits[i] == h;
          UncappedGapFillDeliversAll(old(rows), gap, hits, w, countAt, order, weekUsed, todayUsed, ids, writeAt, i);
        }
      }
    }

    method RunGapFill(gap: GapInput, hits: seq<OpeningHit>, w: Weights, countWeek: bool, today: Option<int>,
                      ids: nat -> string, countAt: MatchTable.Time, writeAt: MatchTable.Time)
      returns (report: GapReport, order: seq<Scored>)
      modifies this
      ensures Ranked(order, GapScored(gap, hits, w, countAt))
      ensures var counted := |Billable(old(rows), gap.candidate.id, countAt)|;
              var weekUsed := if gap.weeklyCap > 0 && countWeek then counted else 0;
              var todayUsed := if today.Some? && gap.dailyCap > 0 then today.value else 0;
              && rows == GapStep(old(rows), gap, order, weekUsed, todayUsed, ids, writeAt)
              && var ms := GapMatches(gap, GapKept(gap, order, weekUsed, todayUsed), todayUsed, ids);
                 report == Reported(gap, |hits|, order, weekUsed, todayUsed, Charges(ms, gap.candidate.id))
    {
      hide Billable, GapScored, UpsertAll, Charges, Ranked, GapMatches;
      var scored := ScoreOpenings(gap, hits, w, countAt);
      order := SortByScore(scored);
      var kept := order;
      var weekUsed := 0;
      var todayUsed := if today.Some? && gap.dailyCap > 0 then today.value else 0;
      if gap.weeklyCap > 0 {
        if countWeek { weekUsed := CountNonOverflowThisWeek(gap.candidate.id, countAt); }
        var room := gap.weeklyCap - weekUsed;
        if room <= 0 {
          NothingKept(gap, todayUsed, ids, writeAt);
          report := GapReport(|hits|, |order|, 0, WeeklyCapReached, weekUsed);
          return;
        }
        if |kept| > room { kept := kept[..room]; }
      }
      if gap.dailyCap > 0 && todayUsed >= gap.dailyCap && |kept| > 0 {
        NothingKept(gap, todayUsed, ids, writeAt);
        report := GapReport(|hits|, |order|, 0, DailyCapReached, weekUsed);
        return;
      }
      var ms, written := BuildMatches(gap, kept, todayUsed, ids);
      UpsertMatches(ms, writeAt);
      var reason := BelowThreshold;
      if written > 0 { reason := Delivered; }
      else if |hits| == 0 { reason := NoInventory; }
      else if |order| == 0 { reason := BelowThreshold; }
      else if gap.dailyCap > 0 && todayUsed >= gap.dailyCap { reason := DailyCapReached; }
      report := GapReport(|hits|, |order|, written, reason, weekUsed + written);
      assert kept == [] || kept == GapKept(gap, order, weekUsed, todayUsed);
    }

    lemma NothingKept(gap: GapInput, todayUsed: int, ids: nat -> string, now: MatchTable.Time)
      ensures UpsertAll(rows, GapMatches(gap, [], todayUsed, ids), now) == rows
      ensures Charges(GapMatches(gap, [], todayUsed, ids), gap.candidate.id) == 0
    {
    }

    lemma NothingCharged(candidate: string)
      ensures Charges([], candidate) == 0
    {
    }

    lemma BuiltAll(gap: GapInput, kept: seq<Scored>, todayUsed: int, ids: nat -> string, ms: seq<Match>)
      requires |ms| == |kept|
      requires forall j :: 0 <= j < |kept| ==> ms[j] == GapMatch(gap, kept[j], GapStatus(gap, todayUsed, j), ids(j))
      ensures ms == GapMatches(gap, kept, todayUsed, ids)
    {
    }

    method BuildMatches(gap: GapInput, kept: seq<Scored>, todayUsed: int, ids: nat -> string)
      returns (ms: seq<Match>, written: nat)
      ensures ms == GapMatches(gap, kept, todayUsed, ids) && written == Charges(ms, gap.candidate.id)
    {
      hide Charges, GapMatches;
      ms, written := [], 0;
      NothingCharged(gap.candidate.id);
      for i := 0 to |kept|
        invariant |ms| == i
        invariant forall j :: 0 <= j < i ==> ms[j] == GapMatch(gap, kept[j], GapStatus(gap, todayUsed, j), ids(j))
        invariant written == Charges(ms, gap.candidate.id)
      {
        var status := New;
        if gap.dailyCap > 0 && todayUsed + i >= gap.dailyCap { status := Overflow; }
        var m := GapMatch(gap, kept[i], status, ids(i));
        ChargesAfter(ms, m, gap.candidate.id);
        ms := ms + [m];
        if status != Overflow { written := written + 1; }
      }
      BuiltAll(gap, kept, todayUsed, ids, ms);
    }

    /** The on-demand path: ranks its hits, plans them against the caps it was given, and writes. */
    method PersistMatches(pin: PersistInput, hits: seq<Scored>, ids: nat -> string, now: MatchTable.Time)
      returns (order: seq<Scored>)
      modifies this
      ensures Ranked(order, hits) && rows == PersistStep(old(rows), pin, order, ids, now)
    {
      order := SortByScore(hits);
      var room := RoomLeft(pin.caps);
      var dayFull := DayFull(pin.caps);
      var ms: seq<Match> := [];
      for i := 0 to |order|
        invariant (ms, room) == PersistPlan(pin, order[..i], ids)
      {
        assert order[..i + 1][..i] == order[..i];
        var h := order[i];
        if h.id != "" {
          var status := New;
          if dayFull || room == Some(0) {
            status := Overflow;
          } else if room.Some? {
            room := Some(room.value - 1);
          }
          ms := ms + [PersistMatch(pin, h, status, ids(|ms|))];
        }
      }
      assert order[..|order|] == order;
      UpsertMatches(ms, now);
    }

    method ScoreCandidates(opening: Opening, hits: seq<CandidateHit>, w: Weights, now: MatchTable.Time)
      returns (scored: seq<(Candidate, real)>)
      ensures scored == FanScored(opening, hits, w, now)
    {
      scored := [];
      for i := 0 to |hits|
        invariant scored == FanScored(opening, hits[..i], w, now)
      {
        assert hits[..i + 1][..i] == hits[..i];
        var total := FanTotal(hits[i].candidate, opening, hits[i].distance, w, now);
        if total >= hits[i].candidate.minScore { scored := scored + [(hits[i].candidate, total)]; }
      }
      assert hits[..|hits|] == hits;
    }

    /** The counters of a run: the weekly ones read off the table when wired. */
    method ReadCounters(scored: seq<(Candidate, real)>, today: map<string, int>, enforceWeekly: bool,
                        now: MatchTable.Time) returns (counters: Counters)
      ensures counters.today == today && counters.enforceWeekly == enforceWeekly
      ensures forall i :: 0 <= i < |scored| ==> scored[i].0.id in counters.week
      ensures forall id :: id in counters.week ==> counters.week[id] == |Billable(rows, id, now)|
    {
      var week: map<string, int> := map[];
      for i := 0 to |scored|
        invariant forall j :: 0 <= j < i ==> scored[j].0.id in week
        invariant forall id :: id in week ==> week[id] == |Billable(rows, id, now)|
      {
        var n := CountNonOverflowThisWeek(scored[i].0.id, now);
        week := week[scored[i].0.id := n];
      }
      counters := Counters(today, week, enforceWeekly);
    }

    /** Cap enforcement for one candidate; `used` caches the weekly count. */
    method Decide(c: Candidate, counters: Counters, used: map<string, int>)
      returns (status: Status, used': map<string, int>)
      ensures (status, used') == FanDecide(c, counters, used)
    {
      status, used' := New, used;
      if c.id in counters.today && c.dailyCap > 0 && counters.today[c.id] >= c.dailyCap {
        status := Overflow;
      }
      if status == New && counters.enforceWeekly && c.weeklyCap > 0 {
        var n := if c.id in used then used[c.id] else if c.id in counters.week then counters.week[c.id] else 0;
        if n >= c.weeklyCap {
          status := Overflow;
          used' := used[c.id := n];
        } else {
          used' := used[c.id := n + 1];
        }
      }
    }

    method DecideStatuses(scored: seq<(Candidate, real)>, counters: Counters)
      returns (statuses: seq<Status>, overflowed: nat)
      ensures statuses == FanPlan(scored, counters).0
      ensures overflowed == multiset(statuses)[Overflow]
    {
      hide FanDecide;
      var used: map<string, int> := map[];
      statuses, overflowed := [], 0;
      for i := 0 to |scored|
        invariant statuses == FanPlan(scored[..i], counters).0 && used == FanPlan(scored[..i], counters).1
        invariant overflowed == multiset(statuses)[Overflow]
      {
        assert scored[..i + 1][..i] == scored[..i];
        var status;
        status, used := Decide(scored[i].0, counters, used);
        if status == Overflow { overflowed := overflowed + 1; }
        statuses := statuses + [status];
      }
      assert scored[..|scored|] == scored;
    }

    method FanOut(fan: FanInput, hits: seq<CandidateHit>, w: Weights, today: map<string, int>, enforceWeekly: bool,
                  ids: nat -> string, countAt: MatchTable.Time, writeAt: MatchTable.Time)
      returns (overflowed: nat, counters: Counters)
      modifies this
      ensures counters.today == today && counters.enforceWeekly == enforceWeekly
      ensures forall id :: id in counters.week ==> counters.week[id] == |Billable(old(rows), id, countAt)|
      ensures var scored := FanScored(fan.opening, hits, w, countAt);
              && (forall i :: 0 <= i < |scored| ==> scored[i].0.id in counters.week)
              && rows == FanStep(old(rows), fan, scored, counters, ids, writeAt)
              && overflowed == multiset(FanPlan(scored, counters).0)[Overflow]
      ensures forall p :: p in rows && p !in old(rows) ==>
                && p.opportunity == fan.opening.id
                && FromCandidate(fan.opening, hits, w, countAt, p.candidate, rows[p].score)
      ensures forall h :: h in hits
                          && FanTotal(h.candidate, fan.opening, h.distance, w, countAt) >= h.candidate.minScore ==>
                Pair(h.candidate.id, fan.opening.id) in rows
    {
      hide Billable, FanScored, UpsertAll, FanMatch;
      var scored := ScoreCandidates(fan.opening, hits, w, countAt);
      counters := ReadCounters(scored, today, enforceWeekly, countAt);
      var statuses;
      statuses, overflowed := DecideStatuses(scored, counters);
      FanPlanLength(scored, counters);
      UpsertMatches(FanMatches(fan, scored, statuses, ids), writeAt);
      hide FanPlan, FromCandidate, FanTotal, FanStep;
      forall p | p in rows && p !in old(rows)
        ensures p.opportunity == fan.opening.id
                && FromCandidate(fan.opening, hits, w, countAt, p.candidate, rows[p].score)
      {
        FanOutDeliversOnlyHits(old(rows), fan, hits, w, countAt, counters, ids, writeAt, p);
      }
      forall h | h in hits && FanTotal(h.candidate, fan.opening, h.distance, w, countAt) >= h.candidate.minScore
        ensures Pair(h.candidate.id, fan.opening.id) in rows
      {
        var i :| 0 <= i < |hits| && hits[i] == h;
        FanOutReachesAll(old(rows), fan, hits, w, countAt, counters, ids, writeAt, i);
      }
    }
  }
}
