/**
  The three cursor walks. All compare whole tuples with `<`. The force-mode backfill also orders
  every key descending, so it always resumes where it stopped. The match and application lists
  order the id ascending, so they resume correctly only at rows that share their leading keys
  with no other row.
 */
module Listings {
  import opened Prelude
  import opened Keyset
  import MatchTable
  import ProductStore

  /** ORDER BY first DESC, second DESC, id ASC. */
  ghost predicate ByIdAscending(listing: seq<Row>) {
    forall i, j :: 0 <= i < j < |listing| ==>
      Above(listing[i], listing[j]) || (Tied(listing[i], listing[j]) && LexLess(listing[i].id, listing[j].id))
  }

  /** ORDER BY first DESC, second DESC, id DESC. */
  ghost predicate ByIdDescending(listing: seq<Row>) {
    forall i, j :: 0 <= i < j < |listing| ==> Less(listing[j], listing[i])
  }

  lemma AscendingIsDistinct(listing: seq<Row>)
    requires ByIdAscending(listing)
    ensures Distinct(listing)
  {
    forall i, j | 0 <= i < j < |listing| ensures listing[i] != listing[j] {
      LexIrreflexive(listing[i].id);
    }
  }

  // ---- Match and application lists ----

  /** No other row shares this row's leading keys. */
  ghost predicate Lonely(listing: seq<Row>, i: nat)
    requires i < |listing|
  {
    forall j :: 0 <= j < |listing| && j != i ==> !Tied(listing[j], listing[i])
  }

  lemma LexAsymmetric(a: string, b: string)
    requires LexLess(a, b)
    ensures !LexLess(b, a)
  {
    if LexLess(b, a) {
      LexTransitive(a, b, a);
      LexIrreflexive(a);
    }
  }

  lemma LonelyCutIsGood(listing: seq<Row>, p: nat)
    requires ByIdAscending(listing) && 0 < p < |listing| && Lonely(listing, p - 1)
    ensures GoodCut(listing, p)
  {
    hide LexLess;
    LexIrreflexive(listing[p - 1].id);
    AfterSuffix(listing, Some(listing[p - 1]), p);
  }

  lemma TiedCutIsBad(listing: seq<Row>, p: nat, j: nat)
    requires ByIdAscending(listing) && 0 < p < |listing| && j < |listing| && j != p - 1
    requires Tied(listing[j], listing[p - 1])
    ensures !GoodCut(listing, p)
  {
    hide LexLess;
    var c := listing[p - 1];
    AscendingIsDistinct(listing);
    AfterMembers(listing, Some(c));
    if j < p - 1 {
      // an earlier row of the tie is shown again
      assert listing[j] in After(listing, Some(c));
      assert forall k :: 0 <= k < |listing[p..]| ==> listing[p..][k] == listing[p + k];
      assert listing[j] !in listing[p..];
    } else {
      // a later row of the tie is skipped
      LexAsymmetric(c.id, listing[j].id);
      assert listing[p..][j - p] == listing[j];
      assert listing[j] !in After(listing, Some(c));
    }
  }

  /** A page boundary of a match or application list resumes where it stopped exactly when the
      last row of the page shares its leading keys with no other row. */
  lemma CutIsGoodIff(listing: seq<Row>, p: nat)
    requires ByIdAscending(listing) && 0 < p < |listing|
    ensures GoodCut(listing, p) <==> Lonely(listing, p - 1)
  {
    if Lonely(listing, p - 1) {
      LonelyCutIsGood(listing, p);
    } else {
      var j :| 0 <= j < |listing| && j != p - 1 && Tied(listing[j], listing[p - 1]);
      TiedCutIsBad(listing, p, j);
    }
  }

  /** Every page of `limit` rows but the last ends on a lonely row. */
  ghost predicate LonelyBoundaries(listing: seq<Row>, limit: nat)
    requires limit >= 1
  {
    forall q :: 0 < q < |listing| && q % limit == 0 ==> Lonely(listing, q - 1)
  }

  lemma NextMultiple(p: nat, limit: nat)
    requires limit >= 1 && p % limit == 0
    ensures (p + limit) % limit == 0
    ensures forall q :: p < q < p + limit ==> q % limit != 0
  {
    var k := p / limit;
    assert p == k * limit;
    assert p + limit == (k + 1) * limit;
    MultipleHasNoRemainder(k + 1, limit);
    forall q | p < q < p + limit ensures q % limit != 0 {
      RemainderOf(k, q - p, limit);
    }
  }

  lemma MultipleHasNoRemainder(k: nat, limit: nat)
    requires limit >= 1
    ensures (k * limit) % limit == 0
  {
    RemainderOf(k, 0, limit);
  }

  lemma RemainderOf(k: nat, r: nat, limit: nat)
    requires r < limit
    ensures (k * limit + r) % limit == r
  {
    var n := k * limit + r;
    SameQuotient(k, r, n / limit, n % limit, limit);
  }

  lemma SameQuotient(q: int, r: int, q': int, r': int, limit: int)
    requires 0 <= r < limit && 0 <= r' < limit && q * limit + r == q' * limit + r'
    ensures q == q' && r == r'
  {
    if q < q' { NextMultipleFits(q, q', limit); } else if q' < q { NextMultipleFits(q', q, limit); }
  }

  lemma NextMultipleFits(a: int, b: int, limit: int)
    requires a < b && limit > 0
    ensures a * limit + limit <= b * limit
  {
    assert b * limit == a * limit + limit + (b - a - 1) * limit;
    assert (b - a - 1) * limit >= 0;
  }

  lemma {:induction false} GoodCutsAreBoundaries(listing: seq<Row>, limit: nat, p: nat)
    requires ByIdAscending(listing) && limit >= 1 && p % limit == 0
    ensures GoodCutsFrom(listing, limit, p) <==>
            forall q :: p < q < |listing| && q % limit == 0 ==> Lonely(listing, q - 1)
    decreases |listing| - p
  {
    hide ByIdAscending, GoodCut, Lonely;
    NextMultiple(p, limit);
    if p + limit < |listing| {
      GoodCutsAreBoundaries(listing, limit, p + limit);
      CutIsGoodIff(listing, p + limit);
    }
  }

  /** Walking a match or application list to the end shows every row exactly once and in order
      exactly when each page but the last ends on a row that ties with no other. */
  lemma ListWalkIsCompleteIff(listing: seq<Row>, limit: nat)
    requires ByIdAscending(listing) && limit >= 1
    ensures Follow(listing, limit, None) == listing <==> LonelyBoundaries(listing, limit)
  {
    AscendingIsDistinct(listing);
    FollowIsCompleteIff(listing, limit);
    GoodCutsAreBoundaries(listing, limit, 0);
  }

  /** In particular it is complete at every page size when no two rows tie. */
  lemma UntiedListWalkIsComplete(listing: seq<Row>, limit: nat)
    requires ByIdAscending(listing) && limit >= 1
    requires forall i, j :: 0 <= i < j < |listing| ==> !Tied(listing[i], listing[j])
    ensures Follow(listing, limit, None) == listing
  {
    forall i | 0 <= i < |listing| ensures Lonely(listing, i) {
      forall j | 0 <= j < |listing| && j != i ensures !Tied(listing[j], listing[i]) {
        assert if j < i then !Tied(listing[j], listing[i]) else !Tied(listing[i], listing[j]);
      }
    }
    ListWalkIsCompleteIff(listing, limit);
  }

  /** Three tied rows at page size two: the first is shown twice and the last never. */
  lemma TiedListWalkLosesARow()
    ensures var a, b, c := Row(1.0, 1, "a"), Row(1.0, 1, "b"), Row(1.0, 1, "c");
            ByIdAscending([a, b, c]) && Follow([a, b, c], 2, None) == [a, b, a]
  {
    var a, b, c := Row(1.0, 1, "a"), Row(1.0, 1, "b"), Row(1.0, 1, "c");
    assert LexLess(a.id, b.id) && LexLess(b.id, c.id) && LexLess(a.id, c.id);
    assert !LexLess(b.id, b.id) && !LexLess(c.id, b.id);
    hide LexLess;
    var listing := [a, b, c];
    AfterThree(a, b, c, None);
    AfterThree(a, b, c, Some(b));
    assert PageAfter(listing, 2, None) == Page([a, b], Some(b));
    assert PageAfter(listing, 2, Some(b)) == Page([a], None);
    assert Follow(listing, 2, Some(b)) == [a];
    assert Follow(listing, 2, None) == [a, b] + [a];
  }

  lemma AfterThree(a: Row, b: Row, c: Row, cursor: Option<Row>)
    ensures After([a, b, c], cursor) ==
            (if Selected(cursor, a) then [a] else []) + (if Selected(cursor, b) then [b] else [])
            + (if Selected(cursor, c) then [c] else [])
  {
    hide Selected;
    assert [a, b, c][..2] == [a, b] && [a, b][..1] == [a] && [a][..0] == [];
    assert After([], cursor) == [];
    assert After([a], cursor) == if Selected(cursor, a) then [a] else [];
    assert After([a, b], cursor) == After([a], cursor) + (if Selected(cursor, b) then [b] else []);
  }

  // ---- The two lists over their tables ----

  function MatchKey(r: MatchTable.Row): Row { Row(r.score, r.createdAt, r.matchId) }

  /** The statuses a match list shows when the caller names none. */
  function ShownStatuses(statuses: set<MatchTable.Status>): set<MatchTable.Status> {
    if statuses == {} then {MatchTable.New, MatchTable.Viewed, MatchTable.Applying} else statuses
  }

  predicate ListedMatch(rows: MatchTable.Rows, candidate: string, statuses: set<MatchTable.Status>,
                        p: MatchTable.Pair) {
    p in rows && p.candidate == candidate && rows[p].status in ShownStatuses(statuses)
  }

  /** The candidate's matches as the query orders them. */
  ghost predicate ListsMatches(listing: seq<Row>, rows: MatchTable.Rows, candidate: string,
                               statuses: set<MatchTable.Status>) {
    && ByIdAscending(listing)
    && (forall p :: ListedMatch(rows, candidate, statuses, p) ==> MatchKey(rows[p]) in listing)
    && (forall k :: k in listing ==> exists p :: ListedMatch(rows, candidate, statuses, p) && MatchKey(rows[p]) == k)
  }

  /** When no two of a candidate's listed matches share score and creation time, the pages show
      every one of them, each exactly once and in order. */
  lemma MatchPagesShowAll(listing: seq<Row>, rows: MatchTable.Rows, candidate: string,
                          statuses: set<MatchTable.Status>, limit: int)
    requires ListsMatches(listing, rows, candidate, statuses)
    requires forall p, q ::
               (ListedMatch(rows, candidate, statuses, p) && ListedMatch(rows, candidate, statuses, q) && p != q)
               ==> !Tied(MatchKey(rows[p]), MatchKey(rows[q]))
    ensures var shown := Follow(listing, PageLimit(limit), None);
            && shown == listing && Distinct(shown)
            && (forall p :: ListedMatch(rows, candidate, statuses, p) ==> MatchKey(rows[p]) in shown)
            && (forall p :: p in rows && p.candidate == candidate && rows[p].status in statuses ==>
                  MatchKey(rows[p]) in shown)
            && (statuses == {} ==>
                  forall p :: p in rows && p.candidate == candidate
                              && rows[p].status in {MatchTable.New, MatchTable.Viewed, MatchTable.Applying} ==>
                    MatchKey(rows[p]) in shown)
  {
    AscendingIsDistinct(listing);
    forall i, j | 0 <= i < j < |listing| ensures !Tied(listing[i], listing[j]) {
      assert listing[i] in listing && listing[j] in listing;
      var p :| ListedMatch(rows, candidate, statuses, p) && MatchKey(rows[p]) == listing[i];
      var q :| ListedMatch(rows, candidate, statuses, q) && MatchKey(rows[q]) == listing[j];
      assert listing[i] != listing[j];
    }
    UntiedListWalkIsComplete(listing, PageLimit(limit));
  }

  datatype Application = Application(id: string, candidate: string, status: string, createdAt: int)

  /** Applications are ordered by creation time alone before the id. */
  function ApplicationKey(a: Application): Row { Row(0.0, a.createdAt, a.id) }

  predicate ListedApplication(a: Application, candidate: string, statuses: set<string>) {
    a.candidate == candidate && (statuses == {} || a.status in statuses)
  }

  ghost predicate ListsApplications(listing: seq<Row>, table: set<Application>, candidate: string,
                                    statuses: set<string>) {
    && ByIdAscending(listing)
    && (forall a :: a in table && ListedApplication(a, candidate, statuses) ==> ApplicationKey(a) in listing)
    && (forall k :: k in listing ==>
          exists a :: a in table && ListedApplication(a, candidate, statuses) && ApplicationKey(a) == k)
  }

  /** The same for applications: complete when no two listed ones were created at the same time. */
  lemma ApplicationPagesShowAll(listing: seq<Row>, table: set<Application>, candidate: string, statuses: set<string>,
                                limit: int)
    requires ListsApplications(listing, table, candidate, statuses)
    requires forall a, b ::
               (a in table && b in table && a != b
                && ListedApplication(a, candidate, statuses) && ListedApplication(b, candidate, statuses))
               ==> a.createdAt != b.createdAt
    ensures var shown := Follow(listing, PageLimit(limit), None);
            && shown == listing && Distinct(shown)
            && forall a :: a in table && ListedApplication(a, candidate, statuses) ==> ApplicationKey(a) in shown
  {
    AscendingIsDistinct(listing);
    forall i, j | 0 <= i < j < |listing| ensures !Tied(listing[i], listing[j]) {
      assert listing[i] in listing && listing[j] in listing;
      var a :| a in table && ListedApplication(a, candidate, statuses) && ApplicationKey(a) == listing[i];
      var b :| b in table && ListedApplication(b, candidate, statuses) && ApplicationKey(b) == listing[j];
      assert listing[i] != listing[j];
    }
    UntiedListWalkIsComplete(listing, PageLimit(limit));
  }

  const DEFAULT_PAGE_LIMIT: nat := 50
  const MAX_PAGE_LIMIT: nat := 200

  function PageLimit(limit: int): (n: nat)
    ensures 1 <= n <= 200 && (1 <= limit <= 200 ==> n == limit) && (limit <= 0 ==> n == 50)
  {
    if limit <= 0 then DEFAULT_PAGE_LIMIT else if limit > MAX_PAGE_LIMIT then MAX_PAGE_LIMIT else limit
  }

  /** One page: fetch up to limit + 1 rows, drop the extra one and point the cursor at the last. */
  method ListPage(listing: seq<Row>, limit: int, cursor: Option<Row>) returns (page: Page)
    ensures page == PageAfter(listing, PageLimit(limit), cursor)
  {
    var n := PageLimit(limit);
    var out := Select(listing, n + 1, cursor);
    if |out| > n {
      page := Page(out[..n], Some(out[n - 1]));
    } else {
      page := Page(out, None);
    }
  }

  function Take(rows: seq<Row>, n: nat): seq<Row> { if |rows| > n then rows[..n] else rows }

  /** SELECT ... WHERE row < cursor ORDER BY ... LIMIT n. */
  method Select(listing: seq<Row>, n: nat, cursor: Option<Row>) returns (out: seq<Row>)
    ensures out == Take(After(listing, cursor), n)
  {
    hide Less;
    out := [];
    for i := 0 to |listing|
      invariant out == Take(After(listing[..i], cursor), n)
    {
      assert listing[..i + 1][..i] == listing[..i];
      if |out| < n && Selected(cursor, listing[i]) { out := out + [listing[i]]; }
    }
    assert listing[..|listing|] == listing;
  }

  // ---- Force-mode backfill ----

  /** With every key descending each cursor resumes where it stopped. */
  lemma DescendingCutIsGood(listing: seq<Row>, p: nat)
    requires ByIdDescending(listing) && 0 < p <= |listing|
    ensures GoodCut(listing, p)
  {
    hide Less;
    forall j | 0 <= j < p ensures !Selected(Some(listing[p - 1]), listing[j]) {
      if j < p - 1 {
        LessIsStrictOrder(listing[j], listing[p - 1], listing[j]);
      } else {
        LessIsStrictOrder(listing[j], listing[j], listing[j]);
      }
    }
    AfterSuffix(listing, Some(listing[p - 1]), p);
  }

  function OpportunityKey(cid: string, o: ProductStore.Opportunity): Row { Row(0.0, o.firstSeenAt, cid) }

  /** The visible opportunities, newest first, as the force-mode query orders them. */
  ghost predicate ListsVisible(listing: seq<Row>, opps: map<string, ProductStore.Opportunity>) {
    && ByIdDescending(listing)
    && (forall cid :: cid in opps && !opps[cid].hidden ==> OpportunityKey(cid, opps[cid]) in listing)
    && (forall k :: k in listing ==> k.id in opps && !opps[k.id].hidden && k == OpportunityKey(k.id, opps[k.id]))
  }

  /** The catalogue never holds an empty id, which the loop takes for "no cursor yet". */
  lemma {:induction false} CatalogueIdsAreNamed(steps: seq<ProductStore.Step>)
    ensures var p := ProductStore.Exec(steps);
            "" !in p.opps && forall k :: k in p.identities ==> p.identities[k] != ""
  {
    if steps != [] { CatalogueIdsAreNamed(steps[..|steps| - 1]); }
  }

  /** How many rows of a listing were embedded. */
  function Embedded(rows: seq<Row>, embeds: Row -> bool): nat {
    if rows == [] then 0
    else Embedded(rows[..|rows| - 1], embeds) + (if embeds(rows[|rows| - 1]) then 1 else 0)
  }

  lemma {:induction false} EmbeddedAppend(a: seq<Row>, b: seq<Row>, embeds: Row -> bool)
    ensures Embedded(a + b, embeds) == Embedded(a, embeds) + Embedded(b, embeds)
  {
    if b == [] {
      assert a + b == a;
    } else {
      assert (a + b)[..|a + b| - 1] == a + b[..|b| - 1];
      EmbeddedAppend(a, b[..|b| - 1], embeds);
    }
  }

  lemma {:induction false} AllEmbeddedIff(rows: seq<Row>, embeds: Row -> bool)
    ensures Embedded(rows, embeds) <= |rows|
    ensures Embedded(rows, embeds) == |rows| <==> forall r :: r in rows ==> embeds(r)
  {
    if rows != [] {
      AllEmbeddedIff(rows[..|rows| - 1], embeds);
      assert rows == rows[..|rows| - 1] + [rows[|rows| - 1]];
    }
  }

  /** One batch: each row is embedded or counted as failed. */
  method EmbedBatch(batch: seq<Row>, embeds: Row -> bool) returns (done: nat, failed: nat)
    ensures done == Embedded(batch, embeds) && done + failed == |batch|
  {
    done, failed := 0, 0;
    for i := 0 to |batch|
      invariant done == Embedded(batch[..i], embeds) && done + failed == i
    {
      assert batch[..i + 1][..i] == batch[..i];
      if embeds(batch[i]) { done := done + 1; } else { failed := failed + 1; }
    }
    assert batch[..|batch|] == batch;
  }

  /** The force-mode loop visits every visible opportunity exactly once and in order, whatever the
      batch size and however many were first seen together. A row whose embedding fails is passed
      over, so the run ends without failures exactly when every visible opportunity was embedded. */
  method Backfill(opps: map<string, ProductStore.Opportunity>, listing: seq<Row>, batchSize: nat, embeds: Row -> bool)
    returns (visited: seq<Row>, done: nat, failed: nat)
    requires ListsVisible(listing, opps) && "" !in opps
    ensures batchSize == 0 ==> visited == []
    ensures batchSize > 0 ==>
              && visited == listing && Distinct(visited)
              && forall cid :: cid in opps && !opps[cid].hidden ==> OpportunityKey(cid, opps[cid]) in visited
    ensures done == Embedded(visited, embeds) && done + failed == |visited|
    ensures batchSize > 0 ==>
              (failed == 0 <==>
                 forall cid :: cid in opps && !opps[cid].hidden ==> embeds(OpportunityKey(cid, opps[cid])))
  {
    hide After, ByIdDescending, Embedded;
    visited, done, failed := [], 0, 0;
    NoneEmbedded(embeds);
    if batchSize == 0 { return; }
    DescendingIsDistinct(listing);
    var after := Row(0.0, 0, "");
    ghost var n := 0;
    while true
      invariant n <= |listing| && visited == listing[..n]
      invariant after.id == "" <==> n == 0
      invariant n > 0 ==> after == listing[n - 1]
      invariant done == Embedded(visited, embeds) && done + failed == |visited|
      decreases |listing| - n
    {
      var cursor := if after.id == "" then None else Some(after);
      var batch := Select(listing, batchSize, cursor);
      WalkResumes(listing, n, cursor);
      if batch == [] { break; }
      TakeExtends(listing, n, batchSize);
      var ok, bad := EmbedBatch(batch, embeds);
      EmbeddedAppend(visited, batch, embeds);
      n := n + |batch|;
      visited, done, failed := visited + batch, done + ok, failed + bad;
      after := batch[|batch| - 1];
      assert after in listing;
    }
    AllEmbeddedIff(visited, embeds);
    VisibleRows(listing, opps, embeds);
  }

  lemma NoneEmbedded(embeds: Row -> bool)
    ensures Embedded([], embeds) == 0
  {
  }

  lemma VisibleRows(listing: seq<Row>, opps: map<string, ProductStore.Opportunity>, embeds: Row -> bool)
    requires ListsVisible(listing, opps)
    ensures (forall r :: r in listing ==> embeds(r))
            <==> forall cid :: cid in opps && !opps[cid].hidden ==> embeds(OpportunityKey(cid, opps[cid]))
  {
    hide ByIdDescending;
    if forall cid :: cid in opps && !opps[cid].hidden ==> embeds(OpportunityKey(cid, opps[cid])) {
      forall r | r in listing ensures embeds(r) {
        assert embeds(OpportunityKey(r.id, opps[r.id]));
      }
    }
  }

  lemma DescendingIsDistinct(listing: seq<Row>)
    requires ByIdDescending(listing)
    ensures Distinct(listing)
  {
    hide Less;
    forall i, j | 0 <= i < j < |listing| ensures listing[i] != listing[j] {
      LessIsStrictOrder(listing[i], listing[i], listing[i]);
    }
  }

  lemma WalkResumes(listing: seq<Row>, n: nat, cursor: Option<Row>)
    requires ByIdDescending(listing) && n <= |listing|
    requires cursor == if n == 0 then None else Some(listing[n - 1])
    ensures After(listing, cursor) == listing[n..]
  {
    hide Less;
    if n == 0 { AfterSuffix(listing, cursor, 0); } else { DescendingCutIsGood(listing, n); }
  }

  lemma TakeExtends(listing: seq<Row>, n: nat, k: nat)
    requires n <= |listing|
    ensures var batch := Take(listing[n..], k);
            && listing[..n] + batch == listing[..n + |batch|]
            && (batch != [] ==> batch[|batch| - 1] == listing[n + |batch| - 1])
  {
  }
}
