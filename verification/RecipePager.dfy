/**
  The recipe executor's paging. Each call of Page is one turn: it sees whatever the fetcher
  answers and either finishes or hands back the state of the next page. The fetcher is an
  arbitrary sequence of replies.
 */
module RecipePager {
  import opened Prelude

  datatype PageState = PageState(url: string, page: int, cursor: string)

  /** The zero value: start at the beginning. */
  const START := PageState("", 0, "")

  datatype Mode = PageParam | Cursor | NextLink | Single

  datatype Pagination = Pagination(mode: Mode, maxPages: int, firstPage: Option<int>)

  /** Where a drive stands after some turns. */
  datatype Progress = Going(st: PageState) | Finished(failed: bool)

  function MaxPages(p: Pagination): (n: int)
    ensures n >= 1
  {
    if p.maxPages <= 0 then 1 else p.maxPages
  }

  function FirstPage(p: Pagination): int { if p.firstPage.Some? then p.firstPage.value else 1 }

  // ---- API modes ----

  /** What one API call meets. */
  datatype Reply = Cancelled | BadUrl | Failed(status: int) | Fetched(items: nat, cursor: string)

  function ApiPage(p: Pagination, st: PageState): int {
    if st == START then FirstPage(p) else st.page
  }

  function ApiTurn(p: Pagination, st: PageState, reply: Reply): Progress {
    var pg := ApiPage(p, st);
    match reply
    case Cancelled => Finished(true)
    case BadUrl => Finished(true)
    case Failed(status) => Finished(!(pg > 1 && status == 429))
    case Fetched(items, cur) =>
      match p.mode
      case PageParam =>
        if items == 0 || pg >= MaxPages(p) then Finished(false) else Going(PageState("", pg + 1, ""))
      case Cursor =>
        if cur == "" || cur == st.cursor || items == 0 || pg >= MaxPages(p) then Finished(false)
        else Going(PageState("", pg + 1, cur))
      case _ => Finished(false)
  }

  function ApiAfter(p: Pagination, replies: nat -> Reply, calls: nat): Progress {
    if calls == 0 then Going(START)
    else match ApiAfter(p, replies, calls - 1)
         case Going(st) => ApiTurn(p, st, replies(calls - 1))
         case Finished(failed) => Finished(failed)
  }

  /** The documented ceiling on API calls. */
  function ApiBound(p: Pagination): nat { Max(1, Max(p.maxPages, 1) - FirstPage(p) + 1) }

  /** Page numbers that never step onto the zero state again. */
  predicate NeverRestarts(p: Pagination) { p.mode == PageParam ==> FirstPage(p) >= 0 }

  lemma {:induction false} ApiCounts(p: Pagination, replies: nat -> Reply, calls: nat)
    requires NeverRestarts(p) && calls >= 1
    ensures ApiAfter(p, replies, calls).Going? ==>
              var st := ApiAfter(p, replies, calls).st;
              && st != START && st.page == FirstPage(p) + calls && FirstPage(p) + calls <= MaxPages(p)
              && (p.mode == PageParam || p.mode == Cursor)
  {
    if calls > 1 { ApiCounts(p, replies, calls - 1); } else { assert ApiAfter(p, replies, 0) == Going(START); }
  }

  /** An API crawl whose page numbers start at zero or above, or that follows cursors, is over
      after at most max(1, max_pages - first + 1) calls, whatever the fetcher does. */
  lemma ApiCrawlEnds(p: Pagination, replies: nat -> Reply)
    requires NeverRestarts(p)
    ensures ApiAfter(p, replies, ApiBound(p)).Finished?
  {
    ApiCounts(p, replies, ApiBound(p));
  }

  /** Page numbering below zero runs into the zero state, which means "start", and begins again:
      with pages that never come up empty no number of calls finishes it. */
  lemma {:induction false} NegativeFirstPageLoops(p: Pagination, replies: nat -> Reply, calls: nat)
    requires p.mode == PageParam && FirstPage(p) < 0
    requires forall i :: replies(i) == Fetched(1, "")
    ensures ApiAfter(p, replies, calls).Going?
    ensures var st := ApiAfter(p, replies, calls).st;
            st.cursor == "" && st.url == "" && FirstPage(p) < st.page <= 0
  {
    if calls > 0 { NegativeFirstPageLoops(p, replies, calls - 1); }
  }

  ghost predicate Ends(p: Pagination, replies: nat -> Reply) {
    exists n: nat :: ApiAfter(p, replies, n).Finished?
  }

  /** So an API crawl ends for every fetcher exactly when it does not restart. */
  lemma ApiCrawlEndsIff(p: Pagination)
    ensures NeverRestarts(p) <==> forall replies: nat -> Reply :: Ends(p, replies)
  {
    if NeverRestarts(p) {
      forall replies: nat -> Reply ensures Ends(p, replies) {
        ApiCrawlEnds(p, replies);
      }
    } else {
      var replies := (i: nat) => Fetched(1, "");
      forall n: nat ensures !ApiAfter(p, replies, n).Finished? {
        NegativeFirstPageLoops(p, replies, n);
      }
      assert !Ends(p, replies);
    }
  }

  /** A page with something on it. */
  predicate Full(r: Reply) { r.Fetched? && r.items > 0 }

  /** The cursor the crawl asked with: the one the previous reply gave. */
  function AskedWith(replies: nat -> Reply, calls: nat): string {
    if calls > 0 && replies(calls - 1).Fetched? then replies(calls - 1).cursor else ""
  }

  lemma {:induction false} GoingRemembers(p: Pagination, replies: nat -> Reply, calls: nat)
    requires NeverRestarts(p) && ApiAfter(p, replies, calls).Going?
    ensures var st := ApiAfter(p, replies, calls).st;
            && ApiPage(p, st) == FirstPage(p) + calls
            && (p.mode == Cursor ==> st.cursor == AskedWith(replies, calls))
            && calls < ApiBound(p)
  {
    if calls > 0 { ApiCounts(p, replies, calls); }
  }

  /** What ends an API crawl after a call: any failure; an empty page; in cursor mode also a missing
      or repeated cursor; the bound on calls; and the first page itself in the single-page modes. */
  predicate Ending(p: Pagination, replies: nat -> Reply, calls: nat)
    requires calls >= 1
  {
    var last := replies(calls - 1);
    || !Full(last)
    || calls == ApiBound(p)
    || (p.mode == Cursor && (last.cursor == "" || last.cursor == AskedWith(replies, calls - 1)))
    || (p.mode != PageParam && p.mode != Cursor)
  }

  /** A call that is reached finishes the crawl exactly for one of those reasons, and with an error
      exactly for a failure other than a rate limit past page 1. */
  lemma CallEndsIff(p: Pagination, replies: nat -> Reply, calls: nat)
    requires NeverRestarts(p) && calls >= 1 && ApiAfter(p, replies, calls - 1).Going?
    ensures ApiAfter(p, replies, calls).Finished? <==> Ending(p, replies, calls)
    ensures ApiAfter(p, replies, calls) == Finished(true) <==>
            && !replies(calls - 1).Fetched?
            && !(FirstPage(p) + calls > 2 && replies(calls - 1) == Failed(429))
  {
    GoingRemembers(p, replies, calls - 1);
  }

  /** The iterator's loop over an API recipe: it stops at the first call with a reason to end. */
  method CrawlApi(p: Pagination, replies: nat -> Reply) returns (calls: nat, failed: bool)
    requires NeverRestarts(p)
    ensures 1 <= calls <= ApiBound(p)
    ensures ApiAfter(p, replies, calls) == Finished(failed)
    ensures forall n :: 0 <= n < calls ==> ApiAfter(p, replies, n).Going?
    ensures Ending(p, replies, calls) && forall n :: 1 <= n < calls ==> !Ending(p, replies, n)
    ensures p.mode == PageParam && calls < ApiBound(p) ==> !Full(replies(calls - 1))
    ensures p.mode == PageParam && (forall n :: 0 <= n < ApiBound(p) ==> Full(replies(n))) ==> calls == ApiBound(p)
    ensures failed <==> !replies(calls - 1).Fetched? && !(FirstPage(p) + calls > 2 && replies(calls - 1) == Failed(429))
  {
    var st, done := START, false;
    calls, failed := 0, false;
    while !done
      invariant done ==> calls >= 1 && ApiAfter(p, replies, calls) == Finished(failed)
      invariant !done ==> ApiAfter(p, replies, calls) == Going(st) && calls < ApiBound(p)
      invariant calls <= ApiBound(p)
      invariant forall n :: 0 <= n < calls ==> ApiAfter(p, replies, n).Going?
      decreases !done, ApiBound(p) - calls
    {
      var turn := ApiTurn(p, st, replies(calls));
      calls := calls + 1;
      match turn
      case Going(next) =>
        st := next;
        ApiCounts(p, replies, calls);
      case Finished(f) =>
        done, failed := true, f;
    }
    hide ApiAfter, Ending;
    CallEndsIff(p, replies, calls);
    forall n | 1 <= n < calls ensures !Ending(p, replies, n) {
      CallEndsIff(p, replies, n);
    }
    if p.mode == PageParam { EndingOfPages(p, replies, calls); }
  }

  lemma EndingOfPages(p: Pagination, replies: nat -> Reply, calls: nat)
    requires calls >= 1 && Ending(p, replies, calls) && p.mode == PageParam
    ensures calls < ApiBound(p) ==> !Full(replies(calls - 1))
  {
  }

  // ---- HTML modes ----

  /** What one listing page meets: its link to the next page, whether that is on the same host,
      and the URL of the next numbered page when it can be built. */
  datatype ListingReply =
    | BadListUrl
    | ListingFailed
    | Listing(items: nat, nextLink: string, sameHost: bool, nextNumbered: Option<string>)

  function HtmlTurn(p: Pagination, st: PageState, reply: ListingReply): Progress {
    var pg := if st.page == 0 then 1 else st.page;
    match reply
    case BadListUrl => Finished(true)
    case ListingFailed => Finished(true)
    case Listing(items, nextLink, sameHost, nextNumbered) =>
      match p.mode
      case NextLink =>
        if nextLink == "" || pg >= MaxPages(p) || !sameHost then Finished(false)
        else Going(PageState(nextLink, pg + 1, ""))
      case PageParam =>
        if items == 0 || pg >= MaxPages(p) || nextNumbered.None? then Finished(false)
        else Going(PageState(nextNumbered.value, pg + 1, ""))
      case _ => Finished(false)
  }

  function HtmlAfter(p: Pagination, replies: nat -> ListingReply, calls: nat): Progress {
    if calls == 0 then Going(START)
    else match HtmlAfter(p, replies, calls - 1)
         case Going(st) => HtmlTurn(p, st, replies(calls - 1))
         case Finished(failed) => Finished(failed)
  }

  lemma {:induction false} HtmlCounts(p: Pagination, replies: nat -> ListingReply, calls: nat)
    requires calls >= 1
    ensures HtmlAfter(p, replies, calls).Going? ==>
              HtmlAfter(p, replies, calls).st.page == calls + 1 && calls < MaxPages(p)
  {
    if calls > 1 { HtmlCounts(p, replies, calls - 1); } else { assert HtmlAfter(p, replies, 0) == Going(START); }
  }

  /** An HTML crawl is over after at most max_pages listing pages, even if every page links on. */
  lemma HtmlCrawlEnds(p: Pagination, replies: nat -> ListingReply)
    ensures HtmlAfter(p, replies, Max(p.maxPages, 1)).Finished?
  {
    HtmlCounts(p, replies, MaxPages(p));
  }

  /** A listing that leads on: a link to the same host, or for numbered pages something listed and
      a next page that can be built. */
  predicate LeadsOn(p: Pagination, r: ListingReply) {
    && r.Listing?
    && (|| (p.mode == NextLink && r.nextLink != "" && r.sameHost)
        || (p.mode == PageParam && r.items > 0 && r.nextNumbered.Some?))
  }

  function NextUrl(p: Pagination, r: ListingReply): string
    requires LeadsOn(p, r)
  {
    if p.mode == NextLink then r.nextLink else r.nextNumbered.value
  }

  /** An HTML crawl goes on exactly while every listing leads on and max_pages is not reached, and
      then asks for the page the last listing led to. */
  lemma {:induction false} HtmlFollowsEveryLink(p: Pagination, replies: nat -> ListingReply, calls: nat)
    requires calls >= 1
    ensures HtmlAfter(p, replies, calls).Going? <==>
            calls < Max(p.maxPages, 1) && forall n :: 0 <= n < calls ==> LeadsOn(p, replies(n))
    ensures HtmlAfter(p, replies, calls).Going? ==>
              && LeadsOn(p, replies(calls - 1))
              && HtmlAfter(p, replies, calls).st == PageState(NextUrl(p, replies(calls - 1)), calls + 1, "")
    ensures HtmlAfter(p, replies, calls - 1).Going? ==>
              (HtmlAfter(p, replies, calls) == Finished(true) <==> !replies(calls - 1).Listing?)
  {
    assert HtmlAfter(p, replies, 0) == Going(START);
    if calls > 1 { HtmlFollowsEveryLink(p, replies, calls - 1); }
  }

  // ---- Tenants ----

  /** One turn of a multi-tenant source: the board it crawls, if any, and whether it is the last. */
  datatype TenantTurn = Panics | Nothing | Crawls(tenant: string, next: PageState, done: bool)

  function TenantStep(p: Pagination, tenants: seq<string>, st: PageState): TenantTurn
    requires |tenants| > 0
  {
    var pg := ApiPage(p, st);
    if pg > |tenants| then Nothing
    else if pg < 1 then Panics
    else Crawls(tenants[pg - 1], PageState("", pg + 1, ""), pg >= |tenants|)
  }

  /** The boards crawled from a state on, or None when the index runs out of range. */
  function TenantsFrom(p: Pagination, tenants: seq<string>, st: PageState): Option<seq<string>>
    requires |tenants| > 0
    decreases |tenants| - ApiPage(p, st)
  {
    match TenantStep(p, tenants, st)
    case Panics => None
    case Nothing => Some([])
    case Crawls(t, next, done) =>
      if done then Some([t])
      else
        var rest := TenantsFrom(p, tenants, next);
        if rest.None? then None else Some([t] + rest.value)
  }

  lemma {:induction false} TenantsFromPage(p: Pagination, tenants: seq<string>, st: PageState)
    requires |tenants| > 0 && 1 <= ApiPage(p, st) <= |tenants|
    ensures TenantsFrom(p, tenants, st) == Some(tenants[ApiPage(p, st) - 1..])
    decreases |tenants| - ApiPage(p, st)
  {
    var pg := ApiPage(p, st);
    assert tenants[pg - 1..] == [tenants[pg - 1]] + tenants[pg..];
    if pg < |tenants| {
      var next := PageState("", pg + 1, "");
      TenantsFromPage(p, tenants, next);
      assert ApiPage(p, next) == pg + 1;
      assert TenantStep(p, tenants, st) == Crawls(tenants[pg - 1], next, false);
    } else {
      assert tenants[pg - 1..] == [tenants[pg - 1]];
    }
  }

  /** A multi-tenant source crawls every board once and in order exactly when its first page is 1
      or unset; a later first page skips boards, an earlier one indexes out of range. */
  lemma TenantsOnceEachIff(p: Pagination, tenants: seq<string>)
    requires |tenants| > 0
    ensures TenantsFrom(p, tenants, START) == Some(tenants) <==> p.firstPage == None || p.firstPage == Some(1)
    ensures TenantsFrom(p, tenants, START).None? <==> p.firstPage.Some? && p.firstPage.value < 1
  {
    var first := FirstPage(p);
    var got := TenantsFrom(p, tenants, START);
    if 1 <= first <= |tenants| {
      TenantsFromPage(p, tenants, START);
      assert got == Some(tenants[first - 1..]);
      assert tenants[0..] == tenants && |got.value| == |tenants| - first + 1;
    } else {
      var none: seq<string> := [];
      assert got == (if first < 1 then None else Some(none)) && |none| != |tenants|;
    }
  }

  // ---- Sitemaps ----

  const SITEMAP_BATCH: nat := 25

  /** An entry of a root sitemap: a job URL, or a nested sitemap with its own entries. */
  datatype Loc = Job(url: string) | Nested(urls: seq<string>)

  function Flatten(locs: seq<Loc>): seq<string> {
    if locs == [] then []
    else Flatten(locs[..|locs| - 1]) + (var l := locs[|locs| - 1]; if l.Job? then [l.url] else l.urls)
  }

  /** Every URL of the root sitemap and of the nested ones is there, and nothing else. */
  lemma {:induction false} FlattenHoldsAll(locs: seq<Loc>, u: string)
    ensures u in Flatten(locs) <==> Job(u) in locs || exists l :: l in locs && l.Nested? && u in l.urls
  {
    if locs != [] {
      var init, l := locs[..|locs| - 1], locs[|locs| - 1];
      FlattenHoldsAll(init, u);
      assert locs == init + [l];
    }
  }

  /** First occurrences of the accepted URLs, in order. */
  function Kept(urls: seq<string>, accept: string -> bool): seq<string> {
    if urls == [] then []
    else
      var init, u := Kept(urls[..|urls| - 1], accept), urls[|urls| - 1];
      if u == "" || u in init || !accept(u) then init else init + [u]
  }

  ghost predicate Unique(s: seq<string>) { forall i, j :: 0 <= i < j < |s| ==> s[i] != s[j] }

  lemma {:induction false} KeptIsUnique(urls: seq<string>, accept: string -> bool)
    ensures Unique(Kept(urls, accept))
    ensures forall u :: u in Kept(urls, accept) <==> u in urls && u != "" && accept(u)
  {
    if urls != [] {
      KeptIsUnique(urls[..|urls| - 1], accept);
      assert urls == urls[..|urls| - 1] + [urls[|urls| - 1]];
    }
  }

  lemma {:induction false} KeptAppend(urls: seq<string>, more: seq<string>, accept: string -> bool, n: nat)
    requires n <= |more|
    ensures Kept(urls + more[..n], accept) ==
            if n == 0 then Kept(urls, accept)
            else var init := Kept(urls + more[..n - 1], accept);
                 if more[n - 1] == "" || more[n - 1] in init || !accept(more[n - 1]) then init else init + [more[n - 1]]
  {
    if n == 0 {
      assert urls + more[..0] == urls;
    } else {
      var all := urls + more[..n];
      assert all[..|all| - 1] == urls + more[..n - 1];
    }
  }

  /** How many URLs a whole crawl may fetch. */
  function SitemapReach(p: Pagination, n: nat): nat {
    if p.maxPages > 0 then Min(n, p.maxPages * 25) else n
  }

  class Executor {
    var sitemapUrls: seq<string>
    var sitemapLoaded: bool
    const pagination: Pagination

    constructor (p: Pagination)
      ensures !sitemapLoaded && pagination == p
    {
      sitemapUrls, sitemapLoaded, pagination := [], false, p;
    }

    /** Collects the job URLs of the fetched sitemaps; none at all is an error. */
    method LoadSitemapUrls(locs: seq<Loc>, accept: string -> bool) returns (urls: Option<seq<string>>)
      ensures var kept := Kept(Flatten(locs), accept); urls == if kept == [] then None else Some(kept)
    {
      var out: seq<string> := [];
      for i := 0 to |locs|
        invariant out == Kept(Flatten(locs[..i]), accept)
      {
        assert locs[..i + 1][..i] == locs[..i];
        var batch := if locs[i].Job? then [locs[i].url] else locs[i].urls;
        ghost var before := Flatten(locs[..i]);
        KeptAppend(before, batch, accept, 0);
        for j := 0 to |batch|
          invariant out == Kept(before + batch[..j], accept)
        {
          KeptAppend(before, batch, accept, j + 1);
          var u := batch[j];
          if u != "" && u !in out && accept(u) { out := out + [u]; }
        }
        assert batch[..|batch|] == batch;
      }
      assert locs[..|locs|] == locs;
      urls := if out == [] then None else Some(out);
    }

    /** One sitemap page: the batch of URLs it fetches. The list is loaded on the first call and
        kept for the later ones. */
    method SitemapPaged(locs: seq<Loc>, accept: string -> bool, st: PageState)
      returns (batch: seq<string>, next: PageState, done: bool, failed: bool)
      requires st.page >= 0
      modifies this
      ensures old(sitemapLoaded) ==> sitemapLoaded && sitemapUrls == old(sitemapUrls)
      ensures !old(sitemapLoaded) ==> sitemapLoaded == !failed && failed == (Kept(Flatten(locs), accept) == [])
      ensures !old(sitemapLoaded) && !failed ==> sitemapUrls == Kept(Flatten(locs), accept)
      ensures failed ==> done && batch == [] && !old(sitemapLoaded)
      ensures !failed ==>
                var n := |sitemapUrls|;
                var from, to := Min(st.page * SITEMAP_BATCH, n), Min((st.page + 1) * SITEMAP_BATCH, n);
                && batch == sitemapUrls[from..to]
                && (done <==> to >= n || (pagination.maxPages > 0 && st.page + 1 >= pagination.maxPages))
                && (!done ==> next == PageState("", st.page + 1, ""))
    {
      batch, next, done, failed := [], START, true, false;
      if !sitemapLoaded {
        var urls := LoadSitemapUrls(locs, accept);
        if urls.None? {
          failed := true;
          return;
        }
        sitemapUrls, sitemapLoaded := urls.value, true;
      }
      var from := st.page * SITEMAP_BATCH;
      if from >= |sitemapUrls| { return; }
      var to := Min(from + SITEMAP_BATCH, |sitemapUrls|);
      batch := sitemapUrls[from..to];
      next := PageState("", st.page + 1, "");
      done := to >= |sitemapUrls| || (pagination.maxPages > 0 && st.page + 1 >= pagination.maxPages);
    }

    /** Driving the sitemap pages from the zero state: the batches concatenate to the accepted
        URLs, each once and in order, cut only by max_pages. */
    method CrawlSitemap(locs: seq<Loc>, accept: string -> bool) returns (fetched: seq<string>, failed: bool)
      requires !sitemapLoaded
      modifies this
      ensures failed <==> Kept(Flatten(locs), accept) == []
      ensures var kept := Kept(Flatten(locs), accept); fetched == kept[..SitemapReach(pagination, |kept|)]
      ensures Unique(fetched)
    {
      ghost var kept := Kept(Flatten(locs), accept);
      KeptIsUnique(Flatten(locs), accept);
      var st, done := START, false;
      fetched, failed := [], false;
      while !done
        invariant st.page >= 0 && (sitemapLoaded <==> st.page > 0)
        invariant !done ==> !failed && (sitemapLoaded ==> sitemapUrls == kept && kept != [])
        invariant !done ==> st.page * SITEMAP_BATCH <= |kept| && fetched == kept[..st.page * SITEMAP_BATCH]
        invariant !done ==> st.page == 0 || st.page * SITEMAP_BATCH < |kept|
        invariant !done && pagination.maxPages > 0 ==> st.page < pagination.maxPages
        invariant done ==> failed == (kept == []) && fetched == kept[..SitemapReach(pagination, |kept|)]
        decreases !done, |kept| - st.page * SITEMAP_BATCH
      {
        var batch, next, last, bad := SitemapPaged(locs, accept, st);
        if bad {
          done, failed := true, true;
          st := PageState("", 0, "");
        } else {
          ghost var from, to := Min(st.page * SITEMAP_BATCH, |kept|), Min((st.page + 1) * SITEMAP_BATCH, |kept|);
          assert kept[..from] + kept[from..to] == kept[..to];
          fetched := fetched + batch;
          done := last;
          st := PageState("", st.page + 1, "");
        }
      }
    }
  }
}
