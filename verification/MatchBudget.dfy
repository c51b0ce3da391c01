/**
  What a batch of matches really charges to a candidate's week, as against what its run plans and
  reports: pairs already in the table, or met twice, are planned but never land.
 */
module MatchBudget {
  import opened Prelude
  import opened Scoring
  import opened MatchTable
  import opened MatchCaps

  predicate PairIn(ms: seq<Match>, p: Pair) { exists i :: 0 <= i < |ms| && ms[i].pair == p }

  predicate Charged(m: Match, candidate: string) { m.pair.candidate == candidate && m.status != Overflow }

  /** The charged matches of a batch whose pair is neither in the table nor earlier in the batch. */
  function Landed(rows: Rows, ms: seq<Match>, candidate: string): nat {
    if ms == [] then 0
    else
      var init, m := ms[..|ms| - 1], ms[|ms| - 1];
      Landed(rows, init, candidate)
      + (if Charged(m, candidate) && m.pair !in rows && !PairIn(init, m.pair) then 1 else 0)
  }

  lemma {:induction false} BatchKeys(rows: Rows, ms: seq<Match>, at: MatchTable.Time, p: Pair)
    ensures p in UpsertAll(rows, ms, at) <==> p in rows || PairIn(ms, p)
  {
    if ms != [] {
      var init, m := ms[..|ms| - 1], ms[|ms| - 1];
      BatchKeys(rows, init, at, p);
      assert PairIn(ms, p) <==> PairIn(init, p) || m.pair == p by {
        assert forall i :: 0 <= i < |init| ==> init[i] == ms[i];
      }
    }
  }

  lemma UpsertLands(rows: Rows, m: Match, candidate: string, at: MatchTable.Time)
    ensures |Billable(Upsert(rows, m, at), candidate, at)| ==
            |Billable(rows, candidate, at)| + (if Charged(m, candidate) && m.pair !in rows then 1 else 0)
  {
    var before, after := Billable(rows, candidate, at), Billable(Upsert(rows, m, at), candidate, at);
    if Charged(m, candidate) && m.pair !in rows {
      assert after == before + {m.pair} && m.pair !in before;
    } else {
      assert after == before;
    }
  }

  /** A batch raises the weekly count by exactly the charged matches that land. */
  lemma {:induction false} BatchRaisesExactly(rows: Rows, ms: seq<Match>, candidate: string, at: MatchTable.Time)
    ensures |Billable(UpsertAll(rows, ms, at), candidate, at)|
            == |Billable(rows, candidate, at)| + Landed(rows, ms, candidate)
  {
    hide Billable;
    if ms != [] {
      var init, m := ms[..|ms| - 1], ms[|ms| - 1];
      BatchRaisesExactly(rows, init, candidate, at);
      BatchKeys(rows, init, at, m.pair);
      UpsertLands(UpsertAll(rows, init, at), m, candidate, at);
    }
  }

  ghost predicate AllLand(rows: Rows, ms: seq<Match>, candidate: string) {
    forall i :: 0 <= i < |ms| && Charged(ms[i], candidate) ==> ms[i].pair !in rows && !PairIn(ms[..i], ms[i].pair)
  }

  lemma {:induction false} LandedIsAllIff(rows: Rows, ms: seq<Match>, candidate: string)
    ensures Landed(rows, ms, candidate) <= Charges(ms, candidate)
    ensures Landed(rows, ms, candidate) == Charges(ms, candidate) <==> AllLand(rows, ms, candidate)
  {
    if ms != [] {
      var init, m := ms[..|ms| - 1], ms[|ms| - 1];
      LandedIsAllIff(rows, init, candidate);
      assert forall i :: 0 <= i < |init| ==> init[i] == ms[i] && init[..i] == ms[..i];
      assert AllLand(rows, ms, candidate) <==>
             AllLand(rows, init, candidate)
             && (Charged(m, candidate) ==> m.pair !in rows && !PairIn(init, m.pair)) by {
        assert ms[..|init|] == init;
      }
    }
  }

  // ---- What gap-fill reports ----

  /** No hit a gap-fill writes as new is already matched or met twice. */
  ghost predicate AllFresh(rows: Rows, gap: GapInput, kept: seq<Scored>, todayUsed: int) {
    forall i :: 0 <= i < |kept| && GapStatus(gap, todayUsed, i) == New ==>
      && Pair(gap.candidate.id, kept[i].id) !in rows
      && forall j :: 0 <= j < i ==> kept[j].id != kept[i].id
  }

  lemma FreshMeansAllLand(rows: Rows, gap: GapInput, kept: seq<Scored>, todayUsed: int, ids: nat -> string)
    ensures AllLand(rows, GapMatches(gap, kept, todayUsed, ids), gap.candidate.id)
            <==> AllFresh(rows, gap, kept, todayUsed)
  {
    var ms := GapMatches(gap, kept, todayUsed, ids);
    forall i | 0 <= i < |kept|
      ensures ms[i] == GapMatch(gap, kept[i], GapStatus(gap, todayUsed, i), ids(i))
      ensures PairIn(ms[..i], ms[i].pair) <==> exists j :: 0 <= j < i && kept[j].id == kept[i].id
    {
      EarlierPairs(gap, kept, todayUsed, ids, i);
    }
  }

  lemma EarlierPairs(gap: GapInput, kept: seq<Scored>, todayUsed: int, ids: nat -> string, i: nat)
    requires i < |kept|
    ensures var ms := GapMatches(gap, kept, todayUsed, ids);
            PairIn(ms[..i], ms[i].pair) <==> exists j :: 0 <= j < i && kept[j].id == kept[i].id
  {
    var ms := GapMatches(gap, kept, todayUsed, ids);
    forall j | 0 <= j <= i ensures ms[j].pair == Pair(gap.candidate.id, kept[j].id) {
      assert ms[j] == GapMatch(gap, kept[j], GapStatus(gap, todayUsed, j), ids(j));
    }
    if j :| 0 <= j < i && kept[j].id == kept[i].id {
      assert ms[..i][j].pair == ms[i].pair;
    }
    if PairIn(ms[..i], ms[i].pair) {
      var j :| 0 <= j < i && ms[..i][j].pair == ms[i].pair;
      assert kept[j].id == kept[i].id;
    }
  }

  lemma ReportedPlan(gap: GapInput, scanned: nat, order: seq<Scored>, weekUsed: int, todayUsed: int,
                     ids: nat -> string)
    ensures var ms := GapMatches(gap, GapKept(gap, order, weekUsed, todayUsed), todayUsed, ids);
            var n := Charges(ms, gap.candidate.id);
            var r := Reported(gap, scanned, order, weekUsed, todayUsed, n);
            r.written == n && r.weeklyUsed == weekUsed + n
  {
  }

  /** A gap-fill never reports less than it charged. It reports the true number, and the true usage
      after its write, exactly when no hit it kept as new was already matched or met twice. */
  lemma ReportIsHonestIff(rows: Rows, gap: GapInput, scanned: nat, order: seq<Scored>, weekUsed: int, todayUsed: int,
                          ids: nat -> string, at: MatchTable.Time)
    ensures var kept := GapKept(gap, order, weekUsed, todayUsed);
            var r := Reported(gap, scanned, order, weekUsed, todayUsed,
                              Charges(GapMatches(gap, kept, todayUsed, ids), gap.candidate.id));
            var before := |Billable(rows, gap.candidate.id, at)|;
            var after := |Billable(GapStep(rows, gap, order, weekUsed, todayUsed, ids, at), gap.candidate.id, at)|;
            && before + r.written >= after
            && (before + r.written == after <==> AllFresh(rows, gap, kept, todayUsed))
            && (weekUsed == before ==> (r.weeklyUsed == after <==> AllFresh(rows, gap, kept, todayUsed)))
  {
    hide Billable, Charges, GapMatches, GapKept, Reported, AllFresh, AllLand;
    var kept := GapKept(gap, order, weekUsed, todayUsed);
    var ms := GapMatches(gap, kept, todayUsed, ids);
    ReportedPlan(gap, scanned, order, weekUsed, todayUsed, ids);
    BatchRaisesExactly(rows, ms, gap.candidate.id, at);
    LandedIsAllIff(rows, ms, gap.candidate.id);
    FreshMeansAllLand(rows, gap, kept, todayUsed, ids);
  }

  /** A hit that is already matched at least as well is reported as a delivery that leaves the
      table as it was. */
  lemma RepeatedHitReportsDelivery(rows: Rows, gap: GapInput, hit: Scored, scanned: nat, weekUsed: int,
                                   ids: nat -> string, at: MatchTable.Time)
    requires Pair(gap.candidate.id, hit.id) in rows && rows[Pair(gap.candidate.id, hit.id)].score >= hit.total
    requires (gap.weeklyCap <= 0 || weekUsed < gap.weeklyCap) && gap.dailyCap <= 0
    ensures var n := Charges(GapMatches(gap, GapKept(gap, [hit], weekUsed, 0), 0, ids), gap.candidate.id);
            Reported(gap, scanned, [hit], weekUsed, 0, n) == GapReport(scanned, 1, 1, Delivered, weekUsed + 1)
    ensures GapStep(rows, gap, [hit], weekUsed, 0, ids, at) == rows
  {
    assert GapKept(gap, [hit], weekUsed, 0) == [hit];
    var ms := GapMatches(gap, [hit], 0, ids);
    assert ms == [GapMatch(gap, hit, New, ids(0))];
    assert ms[..0] == [] && UpsertAll(rows, [], at) == rows && Charges([], gap.candidate.id) == 0;
  }

  // ---- What a reading of the weekly counter is worth ----

  lemma {:induction false} IdLengthBound(pairs: set<Pair>) returns (n: nat)
    ensures forall p :: p in pairs ==> |p.opportunity| <= n
    decreases pairs
  {
    if pairs == {} {
      n := 0;
    } else {
      var p :| p in pairs;
      var m := IdLengthBound(pairs - {p});
      n := Max(m, |p.opportunity|);
      assert forall q :: q in pairs ==> q == p || q in pairs - {p};
    }
  }

  function LongId(n: nat): string { seq(n, _ => 'x') }

  /** There are always opportunities the candidate has not been matched with. */
  lemma FreshHits(rows: Rows, n: nat) returns (order: seq<Scored>)
    ensures |order| == n && Descending(order)
    ensures forall i :: 0 <= i < n ==> forall c :: Pair(c, order[i].id) !in rows
    ensures forall i, j :: 0 <= i < j < n ==> order[i].id != order[j].id
  {
    var bound := IdLengthBound(rows.Keys);
    order := seq(n, (i: nat) => Scored(LongId(bound + 1 + i), 1.0));
    forall i | 0 <= i < n
      ensures order[i] == Scored(LongId(bound + 1 + i), 1.0) && forall c :: Pair(c, order[i].id) !in rows
    {
      assert order[i] == Scored(LongId(bound + 1 + i), 1.0);
      assert |order[i].id| == bound + 1 + i;
    }
    forall i, j | 0 <= i < j < n ensures order[i].id != order[j].id {
      assert |order[i].id| != |order[j].id|;
    }
  }

  function AfterGapFill(rows: Rows, gap: GapInput, order: seq<Scored>, weekUsed: int, todayUsed: int,
                        ids: nat -> string, now: MatchTable.Time): nat {
    |Billable(GapStep(rows, gap, order, weekUsed, todayUsed, ids, now), gap.candidate.id, now)|
  }

  /** A gap-fill adds at most the room it read. */
  lemma GapFillAddsAtMost(rows: Rows, gap: GapInput, order: seq<Scored>, weekUsed: int, todayUsed: int,
                          ids: nat -> string, now: MatchTable.Time)
    requires gap.weeklyCap > 0
    ensures AfterGapFill(rows, gap, order, weekUsed, todayUsed, ids, now)
            <= |Billable(rows, gap.candidate.id, now)| + Max(gap.weeklyCap - weekUsed, 0)
  {
    hide Billable, Charges, UpsertAll;
    var ms := GapMatches(gap, GapKept(gap, order, weekUsed, todayUsed), todayUsed, ids);
    BatchCharges(rows, ms, gap.candidate.id, now, now);
    ChargesAtMost(ms, gap.candidate.id);
  }

  lemma {:induction false} AllChargedCount(ms: seq<Match>, candidate: string)
    requires forall i :: 0 <= i < |ms| ==> Charged(ms[i], candidate)
    ensures Charges(ms, candidate) == |ms|
  {
    if ms != [] { AllChargedCount(ms[..|ms| - 1], candidate); }
  }

  /** And with the daily cap off it can add all of that. */
  lemma GapFillCanAdd(rows: Rows, gap: GapInput, weekUsed: int, todayUsed: int, ids: nat -> string,
                      now: MatchTable.Time)
    returns (order: seq<Scored>)
    requires gap.weeklyCap > 0 && gap.dailyCap <= 0
    ensures Descending(order)
    ensures AfterGapFill(rows, gap, order, weekUsed, todayUsed, ids, now)
            == |Billable(rows, gap.candidate.id, now)| + Max(gap.weeklyCap - weekUsed, 0)
  {
    hide Billable, Charges, UpsertAll, Landed, AllLand;
    order := FreshHits(rows, Max(gap.weeklyCap - weekUsed, 0));
    var kept := GapKept(gap, order, weekUsed, todayUsed);
    assert kept == order;
    var ms := GapMatches(gap, kept, todayUsed, ids);
    GapMatchesOwn(gap, kept, todayUsed, ids);
    AllChargedCount(ms, gap.candidate.id);
    assert AllFresh(rows, gap, kept, todayUsed);
    FreshMeansAllLand(rows, gap, kept, todayUsed, ids);
    LandedIsAllIff(rows, ms, gap.candidate.id);
    BatchRaisesExactly(rows, ms, gap.candidate.id, now);
  }

  /** With the daily cap off, a reading of the weekly counter keeps a candidate within the cap
      whatever hits come exactly when it is no lower than the true count. A counter that cannot be
      read is taken for zero, and then the week can be overrun by everything already delivered. */
  lemma ReadingKeepsCapIff(rows: Rows, gap: GapInput, reading: int, todayUsed: int, ids: nat -> string,
                           now: MatchTable.Time)
    requires gap.weeklyCap > 0 && gap.dailyCap <= 0 && |Billable(rows, gap.candidate.id, now)| <= gap.weeklyCap
    ensures reading >= |Billable(rows, gap.candidate.id, now)| <==>
            forall order | Descending(order) ::
              AfterGapFill(rows, gap, order, reading, todayUsed, ids, now) <= gap.weeklyCap
    ensures exists order :: Descending(order)
              && AfterGapFill(rows, gap, order, 0, todayUsed, ids, now)
                 == |Billable(rows, gap.candidate.id, now)| + gap.weeklyCap
  {
    hide AfterGapFill, Billable, Descending;
    forall order | Descending(order)
      ensures AfterGapFill(rows, gap, order, reading, todayUsed, ids, now)
              <= |Billable(rows, gap.candidate.id, now)| + Max(gap.weeklyCap - reading, 0)
    {
      GapFillAddsAtMost(rows, gap, order, reading, todayUsed, ids, now);
    }
    var worst := GapFillCanAdd(rows, gap, reading, todayUsed, ids, now);
    var unread := GapFillCanAdd(rows, gap, 0, todayUsed, ids, now);
    assert Descending(unread);
  }
}
