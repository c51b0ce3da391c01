/**
  Keyset pagination. A query's listing is the sequence of matching rows in ORDER BY order; a
  page is the part of it that satisfies `row < cursor`, cut at the limit; following the cursor
  means asking again with the last row of the page until the end is reached.
 */
module Keyset {
  import opened Prelude

  /** The keys a listing is ordered by: two leading keys and the unique row id. */
  datatype Row = Row(first: real, second: int, id: string)

  predicate LexLess(a: string, b: string) {
    b != "" && (a == "" || a[0] < b[0] || (a[0] == b[0] && LexLess(a[1..], b[1..])))
  }

  /** Strictly greater leading keys. */
  predicate Above(a: Row, b: Row) { a.first > b.first || (a.first == b.first && a.second > b.second) }

  predicate Tied(a: Row, b: Row) { a.first == b.first && a.second == b.second }

  /** The cursor comparison of all three queries: `(first, second, id) < (cursor...)`. */
  predicate Less(r: Row, c: Row) { Above(c, r) || (Tied(r, c) && LexLess(r.id, c.id)) }

  lemma {:induction false} LexTransitive(a: string, b: string, c: string)
    requires LexLess(a, b) && LexLess(b, c)
    ensures LexLess(a, c)
  {
    if a != "" && a[0] == b[0] == c[0] { LexTransitive(a[1..], b[1..], c[1..]); }
  }

  lemma {:induction false} LexIrreflexive(a: string)
    ensures !LexLess(a, a)
  {
    if a != "" { LexIrreflexive(a[1..]); }
  }

  lemma LessIsStrictOrder(a: Row, b: Row, c: Row)
    ensures !Less(a, a)
    ensures Less(a, b) && Less(b, c) ==> Less(a, c)
  {
    LexIrreflexive(a.id);
    if LexLess(a.id, b.id) && LexLess(b.id, c.id) { LexTransitive(a.id, b.id, c.id); }
  }

  predicate Selected(cursor: Option<Row>, r: Row) {
    cursor.None? || Less(r, cursor.value)
  }

  /** The rows of a listing after a cursor, in listing order. */
  function After(listing: seq<Row>, cursor: Option<Row>): seq<Row> {
    if listing == [] then []
    else
      var init, r := After(listing[..|listing| - 1], cursor), listing[|listing| - 1];
      if Selected(cursor, r) then init + [r] else init
  }

  datatype Page = Page(items: seq<Row>, next: Option<Row>)

  function PageAfter(listing: seq<Row>, limit: nat, cursor: Option<Row>): Page
    requires limit >= 1
  {
    var rest := After(listing, cursor);
    if |rest| > limit then Page(rest[..limit], Some(rest[limit - 1])) else Page(rest, None)
  }

  lemma {:induction false} AfterMembers(listing: seq<Row>, cursor: Option<Row>)
    ensures forall r :: r in After(listing, cursor) <==> r in listing && Selected(cursor, r)
  {
    hide Less;
    if listing != [] {
      AfterMembers(listing[..|listing| - 1], cursor);
      assert listing == listing[..|listing| - 1] + [listing[|listing| - 1]];
    }
  }

  /** A cursor taken from the page it ends leaves strictly less to read. */
  lemma {:induction false} CursorAdvances(listing: seq<Row>, cursor: Option<Row>, x: Row)
    requires Selected(cursor, x)
    ensures |After(listing, Some(x))| <= |After(listing, cursor)|
    ensures x in listing ==> |After(listing, Some(x))| < |After(listing, cursor)|
  {
    if listing != [] {
      CursorAdvances(listing[..|listing| - 1], cursor, x);
      var r := listing[|listing| - 1];
      LessIsStrictOrder(r, x, if cursor.Some? then cursor.value else x);
      LessIsStrictOrder(x, x, x);
      assert x in listing ==> x in listing[..|listing| - 1] || x == r;
    }
  }

  /** Everything the pages show, from a cursor to the end. */
  function Follow(listing: seq<Row>, limit: nat, cursor: Option<Row>): seq<Row>
    requires limit >= 1
    decreases |After(listing, cursor)|
  {
    var page := PageAfter(listing, limit, cursor);
    if page.next.None? then page.items
    else
      AfterMembers(listing, cursor);
      CursorAdvances(listing, cursor, page.next.value);
      page.items + Follow(listing, limit, page.next)
  }

  ghost predicate Distinct(listing: seq<Row>) {
    forall i, j :: 0 <= i < j < |listing| ==> listing[i] != listing[j]
  }

  /** The cursor taken at position p resumes exactly at position p. */
  ghost predicate GoodCut(listing: seq<Row>, p: nat)
    requires 0 < p <= |listing|
  {
    After(listing, Some(listing[p - 1])) == listing[p..]
  }

  /** Every page boundary from position p on resumes where it stopped. */
  ghost predicate GoodCutsFrom(listing: seq<Row>, limit: nat, p: nat)
    requires limit >= 1
    decreases |listing| - p
  {
    p + limit >= |listing| || (GoodCut(listing, p + limit) && GoodCutsFrom(listing, limit, p + limit))
  }

  lemma {:induction false} FollowShowsSelected(listing: seq<Row>, limit: nat, cursor: Option<Row>)
    requires limit >= 1
    ensures forall r :: r in Follow(listing, limit, cursor) ==> r in listing && Selected(cursor, r)
    ensures After(listing, cursor) != [] ==>
              Follow(listing, limit, cursor) != [] && Follow(listing, limit, cursor)[0] == After(listing, cursor)[0]
    decreases |After(listing, cursor)|
  {
    AfterMembers(listing, cursor);
    var page := PageAfter(listing, limit, cursor);
    if page.next.Some? {
      CursorAdvances(listing, cursor, page.next.value);
      FollowShowsSelected(listing, limit, page.next);
      forall r | r in Follow(listing, limit, page.next) ensures Selected(cursor, r) {
        LessIsStrictOrder(r, page.next.value, if cursor.Some? then cursor.value else r);
      }
    }
  }

  lemma {:induction false} AfterKeepsOrder(listing: seq<Row>, cursor: Option<Row>, i: nat)
    requires i < |listing| && Selected(cursor, listing[i]) && Distinct(listing)
    requires forall j :: 0 <= j < i ==> !Selected(cursor, listing[j])
    ensures After(listing, cursor) != [] && After(listing, cursor)[0] == listing[i]
  {
    hide Less;
    var init := listing[..|listing| - 1];
    if i < |listing| - 1 {
      AfterKeepsOrder(init, cursor, i);
    } else {
      AfterSuffix(init, cursor, |init|);
    }
  }

  lemma {:induction false} AfterSuffix(listing: seq<Row>, cursor: Option<Row>, p: nat)
    requires p <= |listing|
    requires forall j :: 0 <= j < p ==> !Selected(cursor, listing[j])
    requires forall j :: p <= j < |listing| ==> Selected(cursor, listing[j])
    ensures After(listing, cursor) == listing[p..]
  {
    hide Selected;
    if listing != [] {
      var init := listing[..|listing| - 1];
      AfterSuffix(init, cursor, if p < |listing| then p else p - 1);
      if p < |listing| {
        assert listing[p..] == init[p..] + [listing[|listing| - 1]];
      }
    }
  }

  /** If following a cursor shows exactly the rest of the listing, the cursor resumes there. */
  lemma FollowedRestIsSelected(listing: seq<Row>, limit: nat, cursor: Option<Row>, p: nat)
    requires limit >= 1 && Distinct(listing) && p < |listing|
    requires Follow(listing, limit, cursor) == listing[p..]
    ensures After(listing, cursor) == listing[p..]
  {
    hide Less;
    FollowShowsSelected(listing, limit, cursor);
    forall j | p <= j < |listing| ensures Selected(cursor, listing[j]) {
      assert listing[j] == listing[p..][j - p];
      assert listing[j] in Follow(listing, limit, cursor);
    }
    NoEarlierSelected(listing, limit, cursor, p, p);
    AfterSuffix(listing, cursor, p);
  }

  lemma {:induction false} NoEarlierSelected(listing: seq<Row>, limit: nat, cursor: Option<Row>, p: nat, i: nat)
    requires limit >= 1 && Distinct(listing) && i <= p < |listing|
    requires Follow(listing, limit, cursor) == listing[p..]
    ensures forall j :: 0 <= j < i ==> !Selected(cursor, listing[j])
  {
    hide Less;
    if i > 0 {
      NoEarlierSelected(listing, limit, cursor, p, i - 1);
      FollowShowsSelected(listing, limit, cursor);
      assert listing[p..][0] == listing[p];
      if Selected(cursor, listing[i - 1]) {
        AfterKeepsOrder(listing, cursor, i - 1);
      }
    }
  }

  lemma FollowStep(listing: seq<Row>, limit: nat, cursor: Option<Row>, p: nat)
    requires limit >= 1 && p + limit < |listing|
    requires After(listing, cursor) == listing[p..]
    ensures Follow(listing, limit, cursor) ==
            listing[p..p + limit] + Follow(listing, limit, Some(listing[p + limit - 1]))
  {
    hide Less;
    assert listing[p..][..limit] == listing[p..p + limit] && listing[p..][limit - 1] == listing[p + limit - 1];
  }

  lemma PrefixCancels(a: seq<Row>, x: seq<Row>, y: seq<Row>)
    ensures a + x == a + y <==> x == y
  {
    assert (a + x)[|a|..] == x && (a + y)[|a|..] == y;
  }

  /** What is left after a full page is shown exactly when the rest is followed exactly. */
  lemma FollowSplits(listing: seq<Row>, limit: nat, cursor: Option<Row>, p: nat)
    requires limit >= 1 && p + limit < |listing|
    requires After(listing, cursor) == listing[p..]
    ensures Follow(listing, limit, cursor) == listing[p..]
            <==> Follow(listing, limit, Some(listing[p + limit - 1])) == listing[p + limit..]
  {
    hide Less;
    FollowStep(listing, limit, cursor, p);
    assert listing[p..] == listing[p..p + limit] + listing[p + limit..];
    PrefixCancels(listing[p..p + limit], Follow(listing, limit, Some(listing[p + limit - 1])), listing[p + limit..]);
  }

  lemma {:induction false} FollowFromCut(listing: seq<Row>, limit: nat, cursor: Option<Row>, p: nat)
    requires limit >= 1 && Distinct(listing) && p <= |listing|
    requires After(listing, cursor) == listing[p..]
    ensures Follow(listing, limit, cursor) == listing[p..] <==> GoodCutsFrom(listing, limit, p)
    decreases |listing| - p, 1
  {
    hide Follow, After, Distinct, GoodCut;
    if p + limit < |listing| {
      FollowSplits(listing, limit, cursor, p);
      FollowPastCut(listing, limit, p + limit);
    } else {
      FollowLastPage(listing, limit, cursor, p);
    }
  }

  lemma FollowLastPage(listing: seq<Row>, limit: nat, cursor: Option<Row>, p: nat)
    requires limit >= 1 && p <= |listing| <= p + limit && After(listing, cursor) == listing[p..]
    ensures Follow(listing, limit, cursor) == listing[p..]
  {
    hide Less;
  }

  lemma FollowPastCut(listing: seq<Row>, limit: nat, cut: nat)
    requires limit >= 1 && Distinct(listing) && 0 < cut < |listing|
    ensures Follow(listing, limit, Some(listing[cut - 1])) == listing[cut..]
            <==> GoodCut(listing, cut) && GoodCutsFrom(listing, limit, cut)
    decreases |listing| - cut, 2
  {
    hide Less, Follow, Distinct;
    var next := Some(listing[cut - 1]);
    if GoodCut(listing, cut) {
      FollowFromCut(listing, limit, next, cut);
    } else if Follow(listing, limit, next) == listing[cut..] {
      FollowedRestIsSelected(listing, limit, next, cut);
    }
  }

  /** Following the cursor from the start shows the whole listing, once and in order, exactly when
      every page boundary resumes where it stopped. */
  lemma FollowIsCompleteIff(listing: seq<Row>, limit: nat)
    requires limit >= 1 && Distinct(listing)
    ensures Follow(listing, limit, None) == listing <==> GoodCutsFrom(listing, limit, 0)
  {
    AfterSuffix(listing, None, 0);
    assert listing[0..] == listing;
    FollowFromCut(listing, limit, None, 0);
  }
}
