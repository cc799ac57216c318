/**
 The sitemap: the specific-first pick per key over the listable rows, served in pages by url with
 an exclusive cursor.
 */
module Sitemap {
  import opened Common
  import opened Schema
  import opened Specificity
  import Pages
  import Sorting

  // ---- the pick ----

  /** Published, dated no later than now, and public: what an anonymous read asks of a row. */
  predicate Open(row: Page, now: int) {
    && row.content.published
    && (row.content.datePublish.None? || row.content.datePublish.value <= now)
    && row.content.visibility.Public?
  }

  predicate Listable(t: Tables, id: Uuid, now: int) {
    LivePage(t, id) && Open(t.pages[id], now) && t.pages[id].content.indexed
  }

  /** The listable rows of one key and one site. */
  function Candidates(t: Tables, key: string, site: Option<Uuid>, now: int): set<Uuid> {
    set id | id in t.pages && Listable(t, id, now) && t.pages[id].key == key && t.pages[id].website == site
  }

  /** DISTINCT ON (key), the website's own row first. The filter comes before the pick. */
  function Pick(t: Tables, key: string, w: Uuid, now: int): Resolution {
    Fold(First(Candidates(t, key, Some(w), now)), First(Candidates(t, key, None, now)))
  }

  /** The picked rows with their urls. */
  function Picked(t: Tables, w: Uuid, now: int): map<Uuid, string> {
    map id | id in t.pages && Pick(t, t.pages[id].key, w, now) in {Specific(id), Generic(id)} :: t.pages[id].content.url
  }

  predicate AnonymouslyServed(t: Tables, w: Uuid, url: string, now: int) {
    var r := Pages.VisiblePage(t, w, url, None, now);
    r.Ok? && r.value.Some?
  }

  /** The website has its own live page at the url, and it is not open. */
  predicate Shadowed(t: Tables, w: Uuid, url: string, now: int) {
    var own := UrlSlot(t, url, Some(w));
    own.Some? && !Open(t.pages[own.value], now)
  }

  lemma PickedIs(t: Tables, w: Uuid, now: int, id: Uuid)
    requires id in Picked(t, w, now)
    ensures Listable(t, id, now) && t.pages[id].website in {Some(w), None}
  {
  }

  lemma OpenIsServed(t: Tables, w: Uuid, now: int, id: Uuid, url: string)
    requires Indexed(t) && LivePage(t, id) && t.pages[id].website in {Some(w), None} && Open(t.pages[id], now)
    requires url == t.pages[id].content.url
    ensures AnonymouslyServed(t, w, url, now) <==> !Shadowed(t, w, url, now)
  {
    SlotHolds(t, id);
    hide UrlSlot;
  }

  /** A listed url is served to an anonymous visitor at that instant, unless the website's own closed page sits there. */
  lemma ListedIsServed(t: Tables, w: Uuid, now: int, id: Uuid)
    requires Indexed(t) && id in Picked(t, w, now)
    ensures AnonymouslyServed(t, w, Picked(t, w, now)[id], now) <==> !Shadowed(t, w, Picked(t, w, now)[id], now)
  {
    hide AnonymouslyServed, Shadowed, Pick;
    PickedIs(t, w, now, id);
    OpenIsServed(t, w, now, id, t.pages[id].content.url);
  }

  /** The pick and the resolver part ways on a key exactly where the website's own page is not listable and the generic is. */
  lemma FilterBeforePick(t: Tables, key: string, w: Uuid, now: int, own: Uuid, generic: Uuid)
    requires Indexed(t) && KeySlot(t, key, Some(w)) == Some(own) && KeySlot(t, key, None) == Some(generic)
    ensures ResolveSpecific(t, key, w) == Specific(own)
    ensures Pick(t, key, w, now)
      == if Listable(t, own, now) then Specific(own) else if Listable(t, generic, now) then Generic(generic) else NoRow
  {
  }

  /** Live, published and due, public, and not withheld from indexing. */
  predicate MayBeListed(t: Tables, id: Uuid, now: int) {
    && id in t.pages && t.pages[id].live
    && var c := t.pages[id].content;
       c.published && (c.datePublish.Some? ==> c.datePublish.value <= now) && c.visibility == Public && c.indexed
  }

  /** Which rows are listed: the website's own that may be, and the generics that may be where no own row of the key may. */
  lemma ListedIff(t: Tables, w: Uuid, now: int, id: Uuid)
    requires Indexed(t)
    ensures id in Picked(t, w, now) <==>
      && MayBeListed(t, id, now)
      && (t.pages[id].website == Some(w)
          || (t.pages[id].website.None?
              && forall j :: j in t.pages && t.pages[j].key == t.pages[id].key && t.pages[j].website == Some(w) ==> !MayBeListed(t, j, now)))
  {
    if id in t.pages {
      var key := t.pages[id].key;
      PickIs(t, key, w, now, id);
      CandidatesAre(t, key, Some(w), now);
      CandidatesAre(t, key, None, now);
      hide MayBeListed, Pick, Candidates;
      assert MayBeListed(t, id, now) ==> id in Candidates(t, key, t.pages[id].website, now) || t.pages[id].website !in {Some(w), None};
    }
  }

  lemma CandidatesAre(t: Tables, key: string, site: Option<Uuid>, now: int)
    ensures forall id :: id in Candidates(t, key, site, now) <==>
      MayBeListed(t, id, now) && t.pages[id].key == key && t.pages[id].website == site
  {
  }

  lemma PickIs(t: Tables, key: string, w: Uuid, now: int, id: Uuid)
    requires Indexed(t)
    ensures var own, generic := Candidates(t, key, Some(w), now), Candidates(t, key, None, now);
      Pick(t, key, w, now) in {Specific(id), Generic(id)} <==> id in own || (own == {} && id in generic)
  {
    CandidatesAlone(t, key, Some(w), now);
    CandidatesAlone(t, key, None, now);
    hide Candidates, Indexed;
  }

  /** The index leaves at most one candidate. */
  lemma CandidatesAlone(t: Tables, key: string, site: Option<Uuid>, now: int)
    requires Indexed(t)
    ensures forall i, j :: i in Candidates(t, key, site, now) && j in Candidates(t, key, site, now) ==> i == j
  {
  }

  // ---- one page, under any collation ----

  type Collation = (string, string) -> bool

  predicate After(leq: Collation, url: string, cursor: Option<string>) {
    cursor.None? || !leq(url, cursor.value)
  }

  function RowsAfter(leq: Collation, rows: map<Uuid, string>, cursor: Option<string>): set<Uuid> {
    set id | id in rows && After(leq, rows[id], cursor)
  }

  function UrlsAfter(leq: Collation, rows: map<Uuid, string>, cursor: Option<string>): set<string> {
    set id | id in RowsAfter(leq, rows, cursor) :: rows[id]
  }

  /** WHERE url > cursor ORDER BY url LIMIT cap: ties may come in any order, and the cap may cut through them. */
  ghost predicate IsPage(leq: Collation, rows: map<Uuid, string>, cursor: Option<string>, cap: nat, page: seq<Uuid>) {
    && |page| <= cap
    && (forall i :: 0 <= i < |page| ==> page[i] in RowsAfter(leq, rows, cursor))
    && (forall i, j :: 0 <= i < j < |page| ==> page[i] != page[j] && leq(rows[page[i]], rows[page[j]]))
    && (forall id :: id in RowsAfter(leq, rows, cursor) && id !in page ==>
          |page| == cap && forall i :: 0 <= i < |page| ==> leq(rows[page[i]], rows[id]))
  }

  /** The cursor handed out with a page: the last url when the page is full. */
  function NextCursor(rows: map<Uuid, string>, page: seq<Uuid>, cap: nat): Option<string>
    requires cap >= 1 && forall id :: id in page ==> id in rows
  {
    if |page| >= cap then Some(rows[page[|page| - 1]]) else None
  }

  /** The page is a part of the ordered rows, and `left` what is still to come. */
  ghost predicate Partial(leq: Collation, rows: map<Uuid, string>, all: set<Uuid>, page: seq<Uuid>, left: set<Uuid>) {
    && all <= rows.Keys && left <= all
    && (forall i :: 0 <= i < |page| ==> page[i] in all - left)
    && (forall id :: id in all - left ==> id in page)
    && (forall i, j :: 0 <= i < j < |page| ==> page[i] != page[j] && leq(rows[page[i]], rows[page[j]]))
    && (forall i, id :: 0 <= i < |page| && id in left ==> leq(rows[page[i]], rows[id]))
  }

  /** The query, with every choice among equal urls left open. */
  method FetchPage(leq: Collation, rows: map<Uuid, string>, cursor: Option<string>, cap: nat) returns (page: seq<Uuid>)
    requires Sorting.TotalOrder(leq)
    ensures IsPage(leq, rows, cursor, cap, page)
  {
    var left := RowsAfter(leq, rows, cursor);
    ghost var all := left;
    page := [];
    while |page| < cap && left != {}
      invariant |page| <= cap && Partial(leq, rows, all, page, left)
      decreases left
    {
      ghost var least := Sorting.LeastBy(leq, rows, left);
      assert exists id :: id in left && forall other :: other in left ==> leq(rows[id], rows[other]);
      var id :| id in left && forall other :: other in left ==> leq(rows[id], rows[other]);
      page, left := page + [id], left - {id};
    }
  }

  // ---- following the cursors ----

  /** A complete crawl from the cursor: each page as served, the next asked with the cursor of the one before. */
  ghost predicate IsCrawl(leq: Collation, rows: map<Uuid, string>, cursor: Option<string>, cap: nat, pages: seq<seq<Uuid>>)
    requires cap >= 1
    decreases |pages|
  {
    && |pages| > 0 && IsPage(leq, rows, cursor, cap, pages[0])
    && var next := NextCursor(rows, pages[0], cap);
       if next.None? then |pages| == 1 else IsCrawl(leq, rows, next, cap, pages[1..])
  }

  function Served(rows: map<Uuid, string>, pages: seq<seq<Uuid>>): set<string>
    requires forall i :: 0 <= i < |pages| ==> forall id :: id in pages[i] ==> id in rows
  {
    set i, id | 0 <= i < |pages| && id in pages[i] :: rows[id]
  }

  /** A page and what lies beyond its cursor are together all there is, and the cursor separates them. */
  lemma PageSplits(leq: Collation, rows: map<Uuid, string>, cursor: Option<string>, cap: nat, page: seq<Uuid>)
    requires Sorting.TotalOrder(leq) && cap >= 1 && IsPage(leq, rows, cursor, cap, page)
    ensures var next := NextCursor(rows, page, cap);
      && (next.None? ==> UrlsAfter(leq, rows, cursor) == set id | id in page :: rows[id])
      && (next.Some? ==>
            && UrlsAfter(leq, rows, cursor) == (set id | id in page :: rows[id]) + UrlsAfter(leq, rows, next)
            && UrlsAfter(leq, rows, next) < UrlsAfter(leq, rows, cursor)
            && forall id :: id in page ==> leq(rows[id], next.value))
  {
    var next := NextCursor(rows, page, cap);
    if next.Some? {
      var last := page[|page| - 1];
      forall id | id in page ensures leq(rows[id], next.value) {
        var i :| 0 <= i < |page| && page[i] == id;
        assert leq(rows[page[i]], rows[last]);
      }
      forall id | id in RowsAfter(leq, rows, cursor) && id !in page
        ensures id in RowsAfter(leq, rows, next) || rows[id] == next.value
      {
        assert leq(rows[last], rows[id]);
      }
      forall id | id in RowsAfter(leq, rows, next) ensures id in RowsAfter(leq, rows, cursor) {
        assert last in RowsAfter(leq, rows, cursor);
      }
      assert next.value in UrlsAfter(leq, rows, cursor) && next.value !in UrlsAfter(leq, rows, next) by {
        assert last in RowsAfter(leq, rows, cursor);
      }
      assert forall url :: url in UrlsAfter(leq, rows, cursor) ==>
        url in (set id | id in page :: rows[id]) || url in UrlsAfter(leq, rows, next);
    }
  }

  /** The urls of two pages, the first before the second. */
  ghost predicate Before(leq: Collation, rows: map<Uuid, string>, p: seq<Uuid>, q: seq<Uuid>)
    requires (forall id :: id in p ==> id in rows) && (forall id :: id in q ==> id in rows)
  {
    forall a, b :: a in p && b in q ==> leq(rows[a], rows[b]) && rows[a] != rows[b]
  }

  lemma {:induction false} CrawlRows(leq: Collation, rows: map<Uuid, string>, cursor: Option<string>, cap: nat,
      pages: seq<seq<Uuid>>, i: nat)
    requires Sorting.TotalOrder(leq) && cap >= 1 && IsCrawl(leq, rows, cursor, cap, pages) && i < |pages|
    ensures forall id :: id in pages[i] ==> id in rows && After(leq, rows[id], cursor)
    decreases |pages|
  {
    if i > 0 {
      var next := NextCursor(rows, pages[0], cap);
      CrawlRows(leq, rows, next, cap, pages[1..], i - 1);
      PageSplits(leq, rows, cursor, cap, pages[0]);
      assert pages[i] == pages[1..][i - 1];
      forall id | id in pages[i] ensures After(leq, rows[id], cursor) {
        assert rows[id] in UrlsAfter(leq, rows, next);
      }
    }
  }

  /** Following the cursors to the end serves exactly the listed urls. */
  lemma {:induction false} CrawlServesAll(leq: Collation, rows: map<Uuid, string>, cursor: Option<string>, cap: nat, pages: seq<seq<Uuid>>)
    requires Sorting.TotalOrder(leq) && cap >= 1 && IsCrawl(leq, rows, cursor, cap, pages)
    requires forall i :: 0 <= i < |pages| ==> forall id :: id in pages[i] ==> id in rows
    ensures Served(rows, pages) == UrlsAfter(leq, rows, cursor)
    decreases |pages|
  {
    PageSplits(leq, rows, cursor, cap, pages[0]);
    var next, rest := NextCursor(rows, pages[0], cap), pages[1..];
    ServedSplits(rows, pages);
    if next.Some? {
      CrawlServesAll(leq, rows, next, cap, rest);
    } else {
      assert Served(rows, rest) == {};
    }
  }

  lemma ServedSplits(rows: map<Uuid, string>, pages: seq<seq<Uuid>>)
    requires |pages| > 0 && forall i :: 0 <= i < |pages| ==> forall id :: id in pages[i] ==> id in rows
    ensures Served(rows, pages) == (set id | id in pages[0] :: rows[id]) + Served(rows, pages[1..])
  {
  }

  /** Each page's urls come strictly before those of every later page, even when two rows share a url. */
  lemma {:induction false} CrawlIncreases(leq: Collation, rows: map<Uuid, string>, cursor: Option<string>, cap: nat,
      pages: seq<seq<Uuid>>, i: nat, j: nat)
    requires Sorting.TotalOrder(leq) && cap >= 1 && IsCrawl(leq, rows, cursor, cap, pages)
    requires i < j < |pages| && forall k :: 0 <= k < |pages| ==> forall id :: id in pages[k] ==> id in rows
    ensures Before(leq, rows, pages[i], pages[j])
    decreases |pages|
  {
    var next, rest := NextCursor(rows, pages[0], cap), pages[1..];
    if i > 0 {
      CrawlIncreases(leq, rows, next, cap, rest, i - 1, j - 1);
    } else {
      PageSplits(leq, rows, cursor, cap, pages[0]);
      CrawlRows(leq, rows, next, cap, rest, j - 1);
      assert pages[j] == rest[j - 1];
    }
  }

  /** No crawl asks for more pages than there are urls, and one. */
  lemma {:induction false} CrawlIsShort(leq: Collation, rows: map<Uuid, string>, cursor: Option<string>, cap: nat, pages: seq<seq<Uuid>>)
    requires Sorting.TotalOrder(leq) && cap >= 1 && IsCrawl(leq, rows, cursor, cap, pages)
    ensures |pages| <= |UrlsAfter(leq, rows, cursor)| + 1
    decreases |pages|
  {
    PageSplits(leq, rows, cursor, cap, pages[0]);
    var next := NextCursor(rows, pages[0], cap);
    if next.Some? {
      CrawlIsShort(leq, rows, next, cap, pages[1..]);
      SubsetSize(UrlsAfter(leq, rows, next), UrlsAfter(leq, rows, cursor));
    }
  }

  /** The crawl ends whatever the query does with ties. */
  method FollowCursors(leq: Collation, rows: map<Uuid, string>, cursor: Option<string>, cap: nat) returns (pages: seq<seq<Uuid>>)
    requires Sorting.TotalOrder(leq) && cap >= 1
    ensures IsCrawl(leq, rows, cursor, cap, pages)
    decreases UrlsAfter(leq, rows, cursor)
  {
    var page := FetchPage(leq, rows, cursor, cap);
    PageSplits(leq, rows, cursor, cap, page);
    var next := NextCursor(rows, page, cap);
    if next.None? {
      return [page];
    }
    var rest := FollowCursors(leq, rows, next, cap);
    pages := [page] + rest;
    assert pages[1..] == rest;
  }

  /** The route's page size. */
  const SITEMAP_PAGE_CAP := 45000

  /** The crawl of a website's sitemap from no cursor yields exactly the urls of the fold. */
  lemma SitemapIsTheFold(t: Tables, w: Uuid, now: int, leq: Collation, pages: seq<seq<Uuid>>)
    requires Sorting.TotalOrder(leq) && IsCrawl(leq, Picked(t, w, now), None, SITEMAP_PAGE_CAP, pages)
    ensures forall i :: 0 <= i < |pages| ==> forall id :: id in pages[i] ==> id in Picked(t, w, now)
    ensures Served(Picked(t, w, now), pages) == Picked(t, w, now).Values
  {
    var rows := Picked(t, w, now);
    forall i | 0 <= i < |pages| ensures forall id :: id in pages[i] ==> id in rows {
      CrawlRows(leq, rows, None, SITEMAP_PAGE_CAP, pages, i);
    }
    CrawlServesAll(leq, rows, None, SITEMAP_PAGE_CAP, pages);
    assert UrlsAfter(leq, rows, None) == rows.Values by {
      assert RowsAfter(leq, rows, None) == rows.Keys;
    }
  }
}
