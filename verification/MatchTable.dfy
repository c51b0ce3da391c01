/**
  `candidate_matches`: one row per candidate and opportunity. The upsert's conflict clause only
  touches rows that are still new, and only to raise their score.
 */
module MatchTable {
  import opened Prelude

  type Time = int

  datatype Pair = Pair(candidate: string, opportunity: string)

  datatype Status = New | Viewed | Dismissed | Applying | Applied | Overflow

  /** An incoming match. */
  datatype Match = Match(
    matchId: string, pair: Pair, status: Status, score: real, rerank: Option<real>,
    rerankerUsed: bool, lastEventId: string, metadata: map<string, string>)

  datatype Row = Row(
    matchId: string, status: Status, score: real, rerank: Option<real>, rerankerUsed: bool,
    lastEventId: string, metadata: map<string, string>, createdAt: Time, appliedAt: Option<Time>)

  type Rows = map<Pair, Row>

  function Inserted(m: Match, now: Time): Row {
    Row(m.matchId, m.status, m.score, m.rerank, m.rerankerUsed, m.lastEventId, m.metadata, now, None)
  }

  function Raised(r: Row, m: Match): Row {
    r.(score := if r.score >= m.score then r.score else m.score,
       rerank := Coalesce(m.rerank, r.rerank), rerankerUsed := r.rerankerUsed || m.rerankerUsed,
       lastEventId := m.lastEventId, metadata := r.metadata + m.metadata)
  }

  function Upsert(rows: Rows, m: Match, now: Time): Rows {
    if m.pair !in rows then rows[m.pair := Inserted(m, now)]
    else if rows[m.pair].status == New && m.score > rows[m.pair].score then rows[m.pair := Raised(rows[m.pair], m)]
    else rows
  }

  function UpsertAll(rows: Rows, ms: seq<Match>, now: Time): Rows {
    if ms == [] then rows else Upsert(UpsertAll(rows, ms[..|ms| - 1], now), ms[|ms| - 1], now)
  }

  function MarkApplied(rows: Rows, p: Pair, now: Time): Rows {
    if p !in rows || rows[p].status == Dismissed then rows
    else rows[p := rows[p].(status := Applied, appliedAt := Coalesce(rows[p].appliedAt, Some(now)))]
  }

  /** The candidate's own dismissal, which looks at no other state of the row. */
  function Dismiss(rows: Rows, p: Pair): Rows {
    if p !in rows then rows else rows[p := rows[p].(status := Dismissed)]
  }

  datatype Step = Offer(m: Match, at: Time) | Apply(p: Pair, at: Time) | Decline(p: Pair)

  function Next(rows: Rows, s: Step): Rows {
    match s
    case Offer(m, at) => Upsert(rows, m, at)
    case Apply(p, at) => MarkApplied(rows, p, at)
    case Decline(p) => Dismiss(rows, p)
  }

  function Exec(rows: Rows, steps: seq<Step>): Rows {
    if steps == [] then rows else Next(Exec(rows, steps[..|steps| - 1]), steps[|steps| - 1])
  }

  /** What no later step changes about a row. */
  predicate Succeeds(r: Row, r': Row) {
    && r'.matchId == r.matchId && r'.createdAt == r.createdAt
    && r.score <= r'.score
    && (r.status != New ==> r'.status != New && r'.score == r.score)
    && (r.status == Dismissed ==> r'.status == Dismissed)
    && (r.status == Applied ==> r'.status == Applied || r'.status == Dismissed)
    && (r'.status != r.status ==> r'.status == Applied || r'.status == Dismissed)
    && (r.appliedAt.Some? ==> r'.appliedAt == r.appliedAt)
  }

  lemma StepSucceeds(rows: Rows, s: Step, p: Pair)
    requires p in rows
    ensures p in Next(rows, s) && Succeeds(rows[p], Next(rows, s)[p])
    // an upsert never changes a status, and only a dismissal leaves `applied`
    ensures s.Offer? ==> Next(rows, s)[p].status == rows[p].status
    ensures rows[p].status == Applied && s != Decline(p) ==> Next(rows, s)[p].status == Applied
  {
  }

  /** A dismissed pair is dismissed and an applied one applied, unless it was dismissed before; the
      first application keeps its time. */
  lemma AnswersStick(rows: Rows, p: Pair, at: Time)
    requires p in rows
    ensures p in Dismiss(rows, p) && Dismiss(rows, p)[p].status == Dismissed
    ensures p in MarkApplied(rows, p, at)
    ensures MarkApplied(rows, p, at)[p].status == if rows[p].status == Dismissed then Dismissed else Applied
    ensures rows[p].status != Dismissed && rows[p].appliedAt == None ==>
              MarkApplied(rows, p, at)[p].appliedAt == Some(at)
  {
  }

  /** An absent pair is inserted as offered; a new one with a lower score takes the offer's score and
      event, its rerank score if it has one, and its metadata over what the row had; any other row
      is left as it is. */
  lemma OfferMerges(rows: Rows, m: Match, at: Time, key: string)
    ensures m.pair in Upsert(rows, m, at) && forall q :: q in rows && q != m.pair ==> q in Upsert(rows, m, at)
    ensures forall q :: q in Upsert(rows, m, at) && q != m.pair ==> q in rows && Upsert(rows, m, at)[q] == rows[q]
    ensures var r' := Upsert(rows, m, at)[m.pair];
            if m.pair !in rows then
              && r'.matchId == m.matchId && r'.status == m.status && r'.score == m.score && r'.rerank == m.rerank
              && r'.rerankerUsed == m.rerankerUsed && r'.lastEventId == m.lastEventId && r'.metadata == m.metadata
              && r'.createdAt == at && r'.appliedAt == None
            else if rows[m.pair].status != New || m.score <= rows[m.pair].score then r' == rows[m.pair]
            else
              var r := rows[m.pair];
              && r'.score == m.score && r'.lastEventId == m.lastEventId
              && r'.rerank == (if m.rerank == None then r.rerank else m.rerank)
              && (r'.rerankerUsed <==> r.rerankerUsed || m.rerankerUsed)
              && (key in r'.metadata <==> key in r.metadata || key in m.metadata)
              && (key in m.metadata ==> r'.metadata[key] == m.metadata[key])
              && (key in r.metadata && key !in m.metadata ==> r'.metadata[key] == r.metadata[key])
  {
  }

  /** A pair keeps the first insert's match id and creation time for good; once it is not new its
      score is frozen; dismissed is never left, and applied only by a dismissal. */
  lemma {:induction false} RowHistory(rows: Rows, steps: seq<Step>, k: nat, p: Pair)
    requires k <= |steps| && p in Exec(rows, steps[..k])
    ensures p in Exec(rows, steps) && Succeeds(Exec(rows, steps[..k])[p], Exec(rows, steps)[p])
    ensures Exec(rows, steps[..k])[p].status == Applied && Decline(p) !in steps[k..] ==>
              Exec(rows, steps)[p].status == Applied
    decreases |steps|
  {
    if k == |steps| {
      assert steps[..k] == steps;
    } else {
      var init := steps[..|steps| - 1];
      assert init[..k] == steps[..k] && steps[k..] == init[k..] + [steps[|steps| - 1]];
      RowHistory(rows, init, k, p);
      StepSucceeds(Exec(rows, init), steps[|steps| - 1], p);
    }
  }

  /** The scores offered to a pair while it was absent or new. */
  function OfferedWhileNew(rows: Rows, steps: seq<Step>, p: Pair): seq<real> {
    if steps == [] then []
    else
      var init, s := steps[..|steps| - 1], steps[|steps| - 1];
      var before := Exec(rows, init);
      if s.Offer? && s.m.pair == p && (p !in before || before[p].status == New)
      then OfferedWhileNew(rows, init, p) + [s.m.score] else OfferedWhileNew(rows, init, p)
  }

  ghost predicate Greatest(x: real, xs: seq<real>) {
    x in xs && forall y :: y in xs ==> y <= x
  }

  /** A pair's score is the greatest one offered to it while it was new. */
  lemma {:induction false} ScoreIsGreatestWhileNew(rows: Rows, steps: seq<Step>, p: Pair)
    requires p !in rows
    ensures p in Exec(rows, steps) <==> OfferedWhileNew(rows, steps, p) != []
    ensures p in Exec(rows, steps) ==> Greatest(Exec(rows, steps)[p].score, OfferedWhileNew(rows, steps, p))
  {
    if steps != [] {
      var init, s := steps[..|steps| - 1], steps[|steps| - 1];
      ScoreIsGreatestWhileNew(rows, init, p);
      var before, xs := Exec(rows, init), OfferedWhileNew(rows, init, p);
      if s.Offer? && s.m.pair == p && (p !in before || before[p].status == New) {
        GreatestAfter(if p in before then before[p].score else s.m.score, xs, s.m.score);
      }
    }
  }

  lemma GreatestAfter(x: real, xs: seq<real>, y: real)
    requires if xs == [] then x == y else Greatest(x, xs)
    ensures Greatest(if x >= y then x else y, xs + [y])
  {
    assert (xs + [y])[|xs|] == y;
  }
}
