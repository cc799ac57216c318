/**
 A short history that reaches what two of the theorems make exceptions for: a website with a page of
 its own, under another key, at the url of a generic. The fanout then leaves the website without the
 generic's page, and the sitemap lists a url that is not served.
 */
module ClashRun {
  import opened Common
  import opened Schema
  import opened Specificity
  import opened SiteHistory
  import opened SiteRuns
  import FanoutProofs
  import PageProofs
  import Pages
  import Sitemap
  import Text
  import Versioning
  import Websites

  const SITE := Websites.NewWebsite("S", "s.example", 7, "en", "/")

  /** A page at "/x", public and to be indexed. */
  function PageAtX(key: string, website: Option<Uuid>): Pages.NewPage {
    Pages.NewPage(key, website, "/x", "X", None, "public", [], true)
  }

  /** One website (0), the generic "a" (5) and the website's own "b" (6), both at "/x"; then the generic is published. */
  function History(at: int): Run {
    Then(Then(Then(Then(Begin, CreateSite(SITE)), CreatePage(PageAtX("a", None))), CreatePage(PageAtX("b", Some(0)))), PublishPage(5, at))
  }

  function Row(key: string, website: Option<Uuid>): Page {
    Page(key, website, Content("/x", "X", None, false, None, true, Public, []), None, true)
  }

  /** What the two slots of "/x" and the three keys' slots hold after n of the events that follow the bootstrap. */
  ghost predicate Stage(t: Tables, n: nat) {
    && 0 in t.websites && t.websites[0].live
    && KeySlot(t, "a", None) == UrlSlot(t, "/x", None) == (if n >= 1 then Some(5) else None)
    && KeySlot(t, "b", Some(0)) == UrlSlot(t, "/x", Some(0)) == (if n >= 2 then Some(6) else None)
    && KeySlot(t, "a", Some(0)) == None
  }

  ghost predicate RowsAre(t: Tables, generic: Page) {
    5 in t.pages && t.pages[5] == generic && 6 in t.pages && t.pages[6] == Row("b", Some(0))
  }

  /** The tables of a first bootstrap. */
  lemma Bootstrapped()
    ensures var t := Websites.CreateWebsite(EMPTY.tables, SITE, 0).0;
      && t.websites == map[0 := Websites.WebsiteRow(SITE)]
      && t.pages == map[1 := Websites.SeedPage(SITE), 2 := Websites.HomePage(Websites.SeedPage(SITE), 1, 0, "/")]
  {
    var t := EMPTY.tables;
    assert !Websites.WebsiteTaken(t, SITE) && Text.Trim("S") == "S";
    var inserted := t.(websites := t.websites[0 := Websites.WebsiteRow(SITE)]);
    assert KeyIds(inserted, Websites.HOMEPAGE, None) == {};
    assert Websites.WithSeed(inserted, SITE, 1) == Ok((inserted.(pages := inserted.pages[1 := Websites.SeedPage(SITE)]), 1));
    var home := Websites.Homed(t, SITE, 0).value;
    assert home.pages == map[1 := Websites.SeedPage(SITE), 2 := Websites.HomePage(Websites.SeedPage(SITE), 1, 0, "/")];
    assert 2 in KeyIds(home, Websites.HOMEPAGE, Some(0));
  }

  lemma StageZero()
    ensures Stage(Websites.CreateWebsite(EMPTY.tables, SITE, 0).0, 0)
  {
    Bootstrapped();
    hide Websites.CreateWebsite;
    var t := Websites.CreateWebsite(EMPTY.tables, SITE, 0).0;
    assert KeyIds(t, "a", None) == {} && KeyIds(t, "a", Some(0)) == {} && KeyIds(t, "b", Some(0)) == {};
    assert UrlIds(t, "/x", None) == {} && UrlIds(t, "/x", Some(0)) == {};
  }

  lemma PageIsValid(key: string, website: Option<Uuid>)
    requires key in {"a", "b"}
    ensures Text.Trim(key) == key && Text.ByteLength(key) == 1 && Pages.ValidateUrl("/x").Ok? && !Text.SpacesOnly("X")
    ensures Pages.RowOf(PageAtX(key, website), Public) == Row(key, website)
  {
    assert "/x"[1..] == "x" && !Text.HasDoubleSlash("x") && "X"[0] != ' ';
  }

  lemma Created(t: Tables, key: string, website: Option<Uuid>, n: nat)
    requires Stage(t, n) && n in {0, 1} && n + 5 !in t.pages
    requires (key, website) == if n == 0 then ("a", None) else ("b", Some(0))
    ensures var after := Pages.CreatePage(t, PageAtX(key, website), n + 5).0;
      Stage(after, n + 1) && after.pages == t.pages[n + 5 := Row(key, website)]
  {
    hide KeySlot, UrlSlot, Text.Trim, Text.ByteLength, Text.SpacesOnly, Pages.ValidateUrl, Pages.CreatePage;
    PageIsValid(key, website);
    var input, id := PageAtX(key, website), n + 5;
    PageProofs.CreateAcceptedIff(t, input, id);
    CreatedRow(t, input, id);
    PageProofs.CreateResolves(t, input, id, "a", "/x", None);
    PageProofs.CreateResolves(t, input, id, "a", "/x", Some(0));
    PageProofs.CreateResolves(t, input, id, "b", "/x", Some(0));
  }

  lemma CreatedRow(t: Tables, input: Pages.NewPage, id: Uuid)
    requires Pages.CreatePage(t, input, id).1.Ok? && input.visibility == "public"
    ensures var after := Pages.CreatePage(t, input, id).0;
      after.pages == t.pages[id := Pages.RowOf(input, Public)] && after.websites == t.websites
  {
    hide Text.Trim, Text.ByteLength, Text.SpacesOnly, Pages.ValidateUrl, Conflicts;
  }

  lemma Publishing(t: Tables, at: int)
    requires Stage(t, 2) && RowsAre(t, Row("a", None))
    ensures var after := Pages.PublishPage(t, 5, at).0; Stage(after, 3) && RowsAre(after, Pages.Published(Row("a", None), at))
  {
    var after := Pages.PublishPage(t, 5, at).0;
    PageProofs.SameSlots(t, after, 5, "a", "/x", None);
    PageProofs.SameSlots(t, after, 5, "a", "/x", Some(0));
    PageProofs.SameSlots(t, after, 5, "b", "/x", Some(0));
    hide KeySlot, UrlSlot;
  }

  lemma Unused(run: Run)
    ensures var s := After(EMPTY, run); TablesOk(s.tables) && Indexed(s.tables) && Fresh(s.tables, s.next) && s.next !in s.tables.pages
  {
    EmptyIsWhole();
    RunKeepsTables(EMPTY, run);
    hide After;
  }

  lemma HistoryIsWhole(at: int)
    ensures Whole(After(EMPTY, History(at)))
  {
    hide After, Whole;
    EmptyIsWhole();
    WholeIffHomesKept(EMPTY, History(at));
  }

  lemma HistoryIs(at: int)
    ensures var s := After(EMPTY, History(at));
      Stage(s.tables, 3) && RowsAre(s.tables, Pages.Published(Row("a", None), at))
  {
    hide Stage, Websites.CreateWebsite, Pages.CreatePage, Pages.PublishPage, TablesOk, Indexed, Fresh;
    var first := Then(Begin, CreateSite(SITE));
    var second := Then(first, CreatePage(PageAtX("a", None)));
    var third := Then(second, CreatePage(PageAtX("b", Some(0))));
    assert After(EMPTY, Begin) == EMPTY;
    StageZero();
    Unused(first);
    Created(After(EMPTY, first).tables, "a", None, 0);
    Unused(second);
    Created(After(EMPTY, second).tables, "b", Some(0), 1);
    Publishing(After(EMPTY, third).tables, at);
  }

  /** The fanout of "a" takes the page of that key from the website, which no copy reaches. */
  lemma FanoutLosesAPage(at: int)
    ensures var s := After(EMPTY, History(at));
      && Whole(s) && !FanoutProofs.NoUrlClash(s.tables, "a")
      && Effective(s.tables, "a", 0).Some? && Effective(Next(s.tables, DeleteGeneric("a"), s.next), "a", 0).None?
  {
    hide After, History, Whole, TablesOk, Indexed, Fresh, Effective, Stage, RowsAre, FanoutProofs.NoUrlClash, Next;
    var s := After(EMPTY, History(at));
    HistoryIsWhole(at);
    HistoryIs(at);
    Unused(History(at));
    ClashTakesThePage(s.tables, s.next, at);
    NextIsFanout(s.tables, "a", s.next);
  }

  lemma NextIsFanout(t: Tables, key: string, base: Uuid)
    ensures Next(t, DeleteGeneric(key), base) == Versioning.DeleteWithFanout(t, key, base).0
  {
    hide Versioning.DeleteWithFanout;
  }

  lemma ClashTakesThePage(t: Tables, base: Uuid, at: int)
    requires Stage(t, 3) && RowsAre(t, Pages.Published(Row("a", None), at)) && Indexed(t) && Fresh(t, base)
    ensures !FanoutProofs.NoUrlClash(t, "a")
    ensures Effective(t, "a", 0).Some? && Effective(Versioning.DeleteWithFanout(t, "a", base).0, "a", 0).None?
  {
    hide Versioning.DeleteWithFanout, KeySlot, UrlSlot, Indexed, Fresh;
    assert 0 in Versioning.FanoutTargets(t, "a") && FanoutProofs.Taken(t, 5, 0);
    FanoutProofs.EffectiveAfter(t, "a", base, "a", 0);
    hide Versioning.FanoutTargets;
  }

  /** Once the generic is out the sitemap lists "/x" and an anonymous visitor is not served there. */
  lemma ListedButNotServed(at: int, now: int)
    requires at <= now
    ensures var t := After(EMPTY, History(at)).tables;
      && 5 in Sitemap.Picked(t, 0, now) && Sitemap.Picked(t, 0, now)[5] == "/x"
      && Sitemap.Shadowed(t, 0, "/x", now) && !Sitemap.AnonymouslyServed(t, 0, "/x", now)
  {
    HistoryIs(at);
    Unused(History(at));
    hide After, History;
    ClashIsListed(After(EMPTY, History(at)).tables, at, now);
  }

  lemma CandidatesAre(t: Tables, now: int)
    requires Stage(t, 3) && 5 in t.pages && Indexed(t) && Sitemap.Listable(t, 5, now) && t.pages[5].key == "a" && t.pages[5].website.None?
    ensures Sitemap.Candidates(t, "a", Some(0), now) == {} && Sitemap.Candidates(t, "a", None, now) == {5}
  {
    assert Sitemap.Candidates(t, "a", Some(0), now) <= KeyIds(t, "a", Some(0));
    forall id | id in Sitemap.Candidates(t, "a", None, now) ensures id == 5 {
      assert id != 5 ==> !Clash(t.pages[id], t.pages[5]);
    }
  }

  lemma ClashIsListed(t: Tables, at: int, now: int)
    requires Stage(t, 3) && RowsAre(t, Pages.Published(Row("a", None), at)) && Indexed(t) && at <= now
    ensures 5 in Sitemap.Picked(t, 0, now) && Sitemap.Picked(t, 0, now)[5] == "/x"
    ensures Sitemap.Shadowed(t, 0, "/x", now) && !Sitemap.AnonymouslyServed(t, 0, "/x", now)
  {
    assert Sitemap.Listable(t, 5, now);
    CandidatesAre(t, now);
    hide KeySlot, UrlSlot, Indexed;
    Sitemap.ListedIsServed(t, 0, now, 5);
  }
}
