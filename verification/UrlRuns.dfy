/**
 Two short histories in which a url of a live website changes under the hands of a verb that was
 called for something else: a bootstrap that seeds the generic homepage anew, and a fanout after the
 website moved its own page away.
 */
module UrlRuns {
  import opened Common
  import opened Schema
  import opened Specificity
  import opened SiteHistory
  import opened SiteRuns
  import opened ClashRun
  import FanoutProofs
  import PageProofs
  import Pages
  import Text
  import Versioning
  import Websites

  // ---- the bootstrap ----

  const SECOND := Websites.NewWebsite("T", "t.example", 8, "en", "/b")

  /** One website (0); its generic homepage (1) is deleted, and a second website is made. */
  const ANEW := Then(Then(Then(Begin, CreateSite(SITE)), DeleteGeneric(Websites.HOMEPAGE)), CreateSite(SECOND))

  ghost predicate OnlySite(t: Tables, generic: Page) {
    && t.websites == map[0 := Websites.WebsiteRow(SITE)]
    && t.pages == map[1 := generic, 2 := Websites.HomePage(Websites.SeedPage(SITE), 1, 0, "/")]
  }

  /** The website has its own homepage, so the fanout copies nothing: the generic is dead, and no new id was drawn. */
  lemma HomepageGone()
    ensures var s := After(EMPTY, ANEW.before); OnlySite(s.tables, Websites.SeedPage(SITE).(live := false)) && s.next == 5
  {
    Bootstrapped();
    hide Websites.CreateWebsite, Versioning.DeleteWithFanout, Versioning.FanoutTargets;
    assert After(EMPTY, Begin) == EMPTY;
    NothingToCopy(Websites.CreateWebsite(EMPTY.tables, SITE, 0).0);
    hide OnlySite;
  }

  lemma NothingToCopy(t: Tables)
    requires OnlySite(t, Websites.SeedPage(SITE))
    ensures Versioning.FanoutTargets(t, Websites.HOMEPAGE) == []
    ensures OnlySite(Versioning.DeleteWithFanout(t, Websites.HOMEPAGE, 5).0, Websites.SeedPage(SITE).(live := false))
  {
    OwnHomes(t);
    hide KeySlot, Versioning.FanoutTargets;
    var after := Versioning.DeleteWithFanout(t, Websites.HOMEPAGE, 5).0;
    assert after.pages == Versioning.SoftDeleted(t.pages, 1) && after.websites == t.websites;
    hide Versioning.DeleteWithFanout;
    HomepageDead(t.pages);
  }

  lemma OwnHomes(t: Tables)
    requires OnlySite(t, Websites.SeedPage(SITE))
    ensures KeySlot(t, Websites.HOMEPAGE, None) == Some(1) && Versioning.FanoutTargets(t, Websites.HOMEPAGE) == []
  {
    assert KeyIds(t, Websites.HOMEPAGE, None) == {1} && KeyIds(t, Websites.HOMEPAGE, Some(0)) == {2};
    hide KeySlot;
    assert KeySlot(t, Websites.HOMEPAGE, Some(0)).Some?;
  }

  lemma HomepageDead(pages: map<Uuid, Page>)
    requires pages == map[1 := Websites.SeedPage(SITE), 2 := Websites.HomePage(Websites.SeedPage(SITE), 1, 0, "/")]
    ensures Versioning.SoftDeleted(pages, 1)
      == map[1 := Websites.SeedPage(SITE).(live := false), 2 := Websites.HomePage(Websites.SeedPage(SITE), 1, 0, "/")]
  {
  }

  lemma SecondIsMade(t: Tables)
    requires PagesOk(t) && Fresh(t, 5) && OnlySite(t, Websites.SeedPage(SITE).(live := false))
    ensures Websites.CreateWebsite(t, SECOND, 5).1.Ok? && SeedAnswers(t, SECOND, "/b", 0)
  {
    SecondFits(t);
    HomedOk(t, SECOND, 5);
    hide PagesOk, Fresh, OnlySite, KeySlot, Websites.Homed, Websites.WebsiteTaken;
  }

  /** The second website's domain, principal and urls are free. */
  lemma SecondFits(t: Tables)
    requires OnlySite(t, Websites.SeedPage(SITE).(live := false))
    ensures Text.Trim(SECOND.name) != "" && !Websites.WebsiteTaken(t, SECOND)
    ensures Websites.Homed(t, SECOND, 5).Ok? && SeedAnswers(t, SECOND, "/b", 0)
  {
    assert Text.Trim("T") == "T";
    assert KeyIds(t, Websites.HOMEPAGE, None) == {} && UrlIds(t, "/b", Some(0)) == {};
    var inserted := t.(websites := t.websites[5 := Websites.WebsiteRow(SECOND)]);
    assert KeyIds(inserted, Websites.HOMEPAGE, None) == {};
    assert !Conflicts(inserted, 6, Websites.SeedPage(SECOND));
    hide Websites.WithHome;
  }

  /** The first website had no page at "/b", and now resolves it to the seed of the second. */
  lemma BootstrapReachesOthers()
    ensures var before, after := After(EMPTY, ANEW.before).tables, After(EMPTY, ANEW).tables;
      && 0 in before.websites && before.websites[0].live
      && EffectiveAt(before, "/b", 0).None? && EffectiveAt(after, "/b", 0) == Some(View(Websites.SeedPage(SECOND).content, multiset{}))
  {
    hide Websites.CreateWebsite, SeedAnswers, EffectiveAt, PagesOk, Fresh;
    HomepageGone();
    Unused(ANEW.before);
    var before := After(EMPTY, ANEW.before).tables;
    SecondIsMade(before);
    BootstrapByUrl(before, SECOND, 5, "/b", 0, None, 0);
  }

  // ---- the fanout ----

  /** One website (0), the generic "a" (5) at "/x", the website's fork of it (6), which it then moves to "/y". */
  const AWAY := Then(Then(Then(Then(Begin, CreateSite(SITE)), CreatePage(PageAtX("a", None))), ForkPage("a", 0)), RenamePage(6, "/y", None))

  /** The generic holds "/x"; the website's fork, once there, is at the url given. */
  ghost predicate Forked(t: Tables, url: Option<string>) {
    && KeySlot(t, "a", None) == UrlSlot(t, "/x", None) == Some(5)
    && KeySlot(t, "a", Some(0)) == (if url.Some? then Some(6) else None)
    && UrlSlot(t, "/x", Some(0)) == (if url == Some("/x") then Some(6) else None)
    && UrlSlot(t, "/y", Some(0)) == (if url == Some("/y") then Some(6) else None)
    && 0 in t.websites && t.websites[0].live && 5 in t.pages && t.pages[5] == Row("a", None)
    && (url.Some? ==> 6 in t.pages && t.pages[6] == Pages.WithUrl(Versioning.SpecificCopy(Row("a", None), 5, 0), url.value))
  }

  lemma GenericMade(t: Tables)
    requires Stage(t, 0) && UrlSlot(t, "/y", Some(0)).None? && 5 !in t.pages
    ensures Forked(Pages.CreatePage(t, PageAtX("a", None), 5).0, None)
  {
    Created(t, "a", None, 0);
    PageIsValid("a", None);
    PageProofs.CreateAcceptedIff(t, PageAtX("a", None), 5);
    PageProofs.CreateResolves(t, PageAtX("a", None), 5, "a", "/y", Some(0));
    hide KeySlot, UrlSlot, Pages.CreatePage;
  }

  lemma ForkMade(t: Tables)
    requires Forked(t, None) && 6 !in t.pages
    ensures Forked(Versioning.Fork(t, "a", 0, 6).0, Some("/x"))
  {
    var after, row := Versioning.Fork(t, "a", 0, 6).0, Versioning.SpecificCopy(t.pages[5], 5, 0);
    PageProofs.FreeSlots(t, 6, row);
    assert LivePage(t, 5);
    assert after.pages == t.pages[6 := row] && after.websites == t.websites;
    PageProofs.AddedSlots(t, after, 6, row, "a", "/x", None);
    PageProofs.AddedSlots(t, after, 6, row, "a", "/x", Some(0));
    PageProofs.AddedSlots(t, after, 6, row, "a", "/y", Some(0));
    hide KeySlot, UrlSlot, Versioning.Fork;
  }

  lemma ForkMoved(t: Tables, redirectId: Uuid)
    requires Forked(t, Some("/x")) && Indexed(t)
    ensures Forked(Pages.RenamePage(t, 6, "/y", None, redirectId).0, Some("/y"))
  {
    assert "/y"[1..] == "y" && !Text.HasDoubleSlash("y");
    PageProofs.OccupiedIs(t, 6, "/y");
    PageProofs.MovedSlots(t, 6, "/y", "a", "/x", None);
    PageProofs.MovedSlots(t, 6, "/y", "a", "/x", Some(0));
    PageProofs.MovedSlots(t, 6, "/y", "a", "/y", Some(0));
    hide KeySlot, UrlSlot, Indexed, Pages.UrlOccupied;
  }

  lemma StartsFree()
    ensures UrlSlot(Websites.CreateWebsite(EMPTY.tables, SITE, 0).0, "/y", Some(0)).None?
  {
    Bootstrapped();
    hide Websites.CreateWebsite;
    assert UrlIds(Websites.CreateWebsite(EMPTY.tables, SITE, 0).0, "/y", Some(0)) == {};
  }

  lemma AwayIs()
    ensures Forked(After(EMPTY, AWAY).tables, Some("/y")) && After(EMPTY, AWAY).next == 8
  {
    hide Stage, Forked, Websites.CreateWebsite, Pages.CreatePage, Pages.RenamePage, Versioning.Fork, TablesOk, Indexed, Fresh;
    var first := Then(Begin, CreateSite(SITE));
    var second := Then(first, CreatePage(PageAtX("a", None)));
    var third := Then(second, ForkPage("a", 0));
    assert After(EMPTY, Begin) == EMPTY;
    StageZero();
    StartsFree();
    Unused(first);
    GenericMade(After(EMPTY, first).tables);
    Unused(second);
    ForkMade(After(EMPTY, second).tables);
    Unused(third);
    ForkMoved(After(EMPTY, third).tables, 7);
  }

  /** The website reads the generic at "/x", and nothing there once the generic is deleted, though it keeps its page of the key. */
  lemma FanoutClosesAUrl()
    ensures var s := After(EMPTY, AWAY);
      var after := Next(s.tables, DeleteGeneric("a"), s.next);
      && 0 in s.tables.websites && s.tables.websites[0].live
      && EffectiveAt(s.tables, "/x", 0).Some? && EffectiveAt(after, "/x", 0).None?
      && Effective(after, "a", 0) == Effective(s.tables, "a", 0)
  {
    hide After, TablesOk, Indexed, Fresh, Forked, Next, Effective, EffectiveAt;
    var s := After(EMPTY, AWAY);
    AwayIs();
    Unused(AWAY);
    NextIsFanout(s.tables, "a", s.next);
    UrlCloses(s.tables, s.next);
  }

  lemma UrlCloses(t: Tables, base: Uuid)
    requires Forked(t, Some("/y")) && Indexed(t) && Fresh(t, base)
    ensures 0 in t.websites && t.websites[0].live && EffectiveAt(t, "/x", 0).Some?
    ensures var after := Versioning.DeleteWithFanout(t, "a", base).0;
      EffectiveAt(after, "/x", 0).None? && Effective(after, "a", 0) == Effective(t, "a", 0)
  {
    hide KeySlot, UrlSlot, Indexed, Fresh, Versioning.DeleteWithFanout;
    FanoutProofs.FanoutByUrl(t, "a", base, "/x", 0);
    FanoutProofs.EffectiveAfter(t, "a", base, "a", 0);
    OwnIsNoTarget(t);
    hide Effective;
  }

  lemma OwnIsNoTarget(t: Tables)
    requires KeySlot(t, "a", Some(0)).Some?
    ensures 0 !in Versioning.FanoutTargets(t, "a")
  {
  }
}
