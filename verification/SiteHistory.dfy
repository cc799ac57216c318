/**
 The site invariant over any serial run, and exactly which events break it: the delete of a specific,
 and the two patches that write one side of the homepage url without the other.
 */
module SiteHistory {
  import opened Common
  import opened Schema
  import opened Specificity
  import opened Versioning
  import opened SiteRuns
  import opened Text
  import PageProofs
  import Pages
  import Redirects
  import Websites

  datatype Event =
    | CreateSite(site: Websites.NewWebsite)
    | CreatePage(page: Pages.NewPage)
    | RenamePage(id: Uuid, url: string, redirect: Option<int>)
    | PublishPage(pageId: Uuid, at: int)
    | UnpublishPage(pageId: Uuid)
    | ForkPage(key: string, website: Uuid)
    | DeleteGeneric(genericKey: string)
    | CreateRedirect(forSite: Uuid, kind: string, urlFrom: string, urlTo: Option<string>)
    | PatchRedirect(redirectId: Uuid, patch: Redirects.Patch)
    | DeleteRedirect(redirectId: Uuid)
    | RecordRedirect(forSite: Uuid, recordFrom: string, recordTo: string, recordKind: string)
    | DeletePage(pageId: Uuid)
    | PatchPage(pageId: Uuid, pageUrl: string)
    | PatchHome(siteId: Uuid, homeUrl: string)
    | PatchLang(siteId: Uuid, code: string)

  /** The tables after the event, drawing new uuids from `base`. */
  function Next(t: Tables, e: Event, base: Uuid): Tables {
    match e
    case CreateSite(site) => Websites.CreateWebsite(t, site, base).0
    case CreatePage(page) => Pages.CreatePage(t, page, base).0
    case RenamePage(id, url, redirect) => Pages.RenamePage(t, id, url, redirect, base).0
    case PublishPage(id, at) => Pages.PublishPage(t, id, at).0
    case UnpublishPage(id) => Pages.UnpublishPage(t, id).0
    case ForkPage(key, w) => Fork(t, key, w, base).0
    case DeleteGeneric(key) => DeleteWithFanout(t, key, base).0
    case CreateRedirect(w, kind, from, to) => Redirects.Create(t, w, kind, from, to, base).0
    case PatchRedirect(id, p) => Redirects.PatchRedirect(t, id, p).0
    case DeleteRedirect(id) => Redirects.Delete(t, id).0
    case RecordRedirect(w, from, to, kind) => Redirects.Record(t, w, from, to, kind, base).0
    case DeletePage(id) => Pages.DeleteSpecific(t, id).0
    case PatchPage(id, url) => PatchPageUrl(t, id, url).0
    case PatchHome(w, url) => PatchHomepageUrl(t, w, url)
    case PatchLang(w, code) => PatchLangCode(t, w, code)
  }

  /** How many uuids the event draws. */
  function Draws(t: Tables, e: Event): nat {
    match e
    case CreateSite(_) => 5
    case DeleteGeneric(key) => |FanoutTargets(t, key)|
    case PublishPage(_, _) => 0
    case UnpublishPage(_) => 0
    case PatchRedirect(_, _) => 0
    case DeleteRedirect(_) => 0
    case DeletePage(_) => 0
    case PatchPage(_, _) => 0
    case PatchHome(_, _) => 0
    case PatchLang(_, _) => 0
    case _ => 1
  }

  // ---- new uuids stay new ----

  lemma {:induction false} CopyAllFresh(t: Tables, generic: Uuid, targets: seq<Uuid>, base: Uuid, n: nat)
    requires Fresh(t, base) && n <= |targets|
    ensures Fresh(CopyAll(t, generic, targets, base, n).tables, base + n)
  {
    hide Fresh;
    if n > 0 {
      CopyAllFresh(t, generic, targets, base, n - 1);
      var c, w, newId, next := CopyAll(t, generic, targets, base, n - 1), targets[n - 1], base + n - 1, base + n;
      FreshUnderMore(c.tables, newId, next);
      if CopyLands(c.tables, generic, w, newId) {
        CopyIsFresh(c.tables, generic, w, newId, next);
      }
    }
  }

  lemma FanoutFresh(t: Tables, key: string, base: Uuid)
    requires Fresh(t, base)
    ensures Fresh(DeleteWithFanout(t, key, base).0, base + |FanoutTargets(t, key)|)
  {
    var n := |FanoutTargets(t, key)|;
    assert Fresh(t, base + n);
    if ResolveGeneric(t, key).Some? {
      var generic, targets := ResolveGeneric(t, key).value, FanoutTargets(t, key);
      CopyAllFresh(t, generic, targets, base, n);
      var c := CopyAll(t, generic, targets, base, n).tables;
      RepointedFresh(c, key, generic, base + n);
    }
  }

  lemma RepointedFresh(c: Tables, key: string, generic: Uuid, next: Uuid)
    requires Fresh(c, next)
    ensures Fresh(c.(menus := RepointedToSpecifics(c, key, generic), pages := SoftDeleted(c.pages, generic)), next)
  {
    var menus := RepointedToSpecifics(c, key, generic);
    forall m | m in menus && menus[m].page.Some? ensures menus[m].page.value < next {
      var own := KeySlot(c, key, Some(c.menus[m].website));
      assert own.Some? ==> own.value in KeyIds(c, key, Some(c.menus[m].website));
    }
  }

  lemma PageRowFresh(t: Tables, row: Page, base: Uuid)
    requires Fresh(t, base)
    ensures Fresh(t.(pages := t.pages[base := row]), base + 1)
  {
  }

  lemma RedirectRowFresh(t: Tables, id: Uuid, row: Redirect, next: Uuid)
    requires Fresh(t, next) && id < next
    ensures Fresh(t.(redirects := t.redirects[id := row]), next)
  {
  }

  /** Nothing new is named: the same ids, and menus that point where they pointed. */
  lemma SameIdsFresh(t: Tables, after: Tables, next: Uuid)
    requires Fresh(t, next) && after.pages.Keys == t.pages.Keys && after.websites.Keys == t.websites.Keys
    requires after == t.(pages := after.pages, websites := after.websites, menus := after.menus) && after.menus.Keys == t.menus.Keys
    requires forall m :: m in t.menus ==> after.menus[m].page == t.menus[m].page && after.menus[m].parent == t.menus[m].parent
    ensures Fresh(after, next)
  {
  }

  lemma MovedFresh(t: Tables, id: Uuid, url: string, next: Uuid)
    requires Fresh(t, next) && id in t.pages
    ensures Fresh(Pages.Moved(t, id, url), next)
  {
    hide Fresh;
    SameIdsFresh(t, Pages.Moved(t, id, url), next);
  }

  lemma RenameFresh(t: Tables, id: Uuid, url: string, redirect: Option<int>, base: Uuid)
    requires Fresh(t, base)
    ensures Fresh(Pages.RenamePage(t, id, url, redirect, base).0, base + 1)
  {
    hide Fresh, Pages.Moved, Pages.ValidateUrl, Pages.RedirectTaken;
    var after, next := Pages.RenamePage(t, id, url, redirect, base).0, base + 1;
    FreshUnderMore(t, base, next);
    if LivePage(t, id) {
      var moved := Pages.Moved(t, id, url);
      MovedFresh(t, id, url, next);
      if base in after.redirects {
        RedirectRowFresh(moved, base, after.redirects[base], next);
      }
    }
  }

  lemma NextFresh(t: Tables, e: Event, base: Uuid)
    requires Fresh(t, base)
    ensures Fresh(Next(t, e, base), base + Draws(t, e))
  {
    hide Fresh, Redirects.ValidateRedirect, Pages.ValidateUrl, FanoutTargets, PatchPageUrl, PatchHomepageUrl, PatchLangCode,
      Pages.DeleteSpecific;
    match e
    case CreateSite(site) => Websites.CreateKeepsFresh(t, site, base);
    case ForkPage(key, w) => ForkFresh(t, key, w, base);
    case DeleteGeneric(key) => FanoutFresh(t, key, base);
    case CreateRedirect(_, _, _, _) => RedirectsFresh(t, e, base);
    case PatchRedirect(_, _) => RedirectsFresh(t, e, base);
    case DeleteRedirect(_) => RedirectsFresh(t, e, base);
    case RecordRedirect(_, _, _, _) => RedirectsFresh(t, e, base);
    case DeletePage(id) => DeleteFresh(t, id, base);
    case PatchPage(id, url) => PatchPageFresh(t, id, url, base);
    case PatchHome(w, url) => PatchSiteFresh(t, w, url, "", base);
    case PatchLang(w, code) => PatchSiteFresh(t, w, "", code, base);
    case _ => PagesFresh(t, e, base);
  }

  lemma PatchPageFresh(t: Tables, id: Uuid, url: string, base: Uuid)
    requires Fresh(t, base)
    ensures Fresh(PatchPageUrl(t, id, url).0, base)
  {
    hide Fresh, Pages.ValidateUrl, Pages.UrlOccupied;
    EditedFresh(t, PatchPageUrl(t, id, url).0, base);
  }

  lemma PatchSiteFresh(t: Tables, w: Uuid, url: string, code: string, base: Uuid)
    requires Fresh(t, base)
    ensures Fresh(PatchHomepageUrl(t, w, url), base) && Fresh(PatchLangCode(t, w, code), base)
  {
    hide Fresh;
    SitesFresh(t, PatchHomepageUrl(t, w, url).websites, base);
    SitesFresh(t, PatchLangCode(t, w, code).websites, base);
  }

  lemma SitesFresh(t: Tables, websites: map<Uuid, Website>, base: Uuid)
    requires Fresh(t, base) && websites.Keys == t.websites.Keys
    ensures Fresh(t.(websites := websites), base)
  {
  }

  lemma DeleteFresh(t: Tables, id: Uuid, base: Uuid)
    requires Fresh(t, base)
    ensures Fresh(Pages.DeleteSpecific(t, id).0, base)
  {
    if Pages.DeleteSpecific(t, id).1.Ok? {
      var dead := t.(pages := t.pages[id := t.pages[id].(live := false)]);
      var to := ResolveGeneric(dead, t.pages[id].key);
      assert to.Some? ==> to.value in KeyIds(dead, t.pages[id].key, None);
      ReboundFresh(dead, id, to, base);
    }
  }

  lemma ReboundFresh(t: Tables, from: Uuid, to: Option<Uuid>, next: Uuid)
    requires Fresh(t, next) && (to.Some? ==> to.value in t.pages)
    ensures Fresh(t.(menus := Pages.MenusRebound(t.menus, from, to)), next)
  {
  }

  lemma PagesFresh(t: Tables, e: Event, base: Uuid)
    requires Fresh(t, base) && (e.CreatePage? || e.RenamePage? || e.PublishPage? || e.UnpublishPage?)
    ensures Fresh(Next(t, e, base), base + Draws(t, e))
  {
    hide Fresh, Pages.ValidateUrl, Conflicts;
    match e
    case CreatePage(page) => CreatePageFresh(t, page, base);
    case RenamePage(id, url, redirect) => RenameFresh(t, id, url, redirect, base);
    case PublishPage(id, at) => EditedFresh(t, Pages.PublishPage(t, id, at).0, base);
    case UnpublishPage(id) => EditedFresh(t, Pages.UnpublishPage(t, id).0, base);
  }

  lemma EditedFresh(t: Tables, after: Tables, base: Uuid)
    requires Fresh(t, base) && after == t.(pages := after.pages) && after.pages.Keys == t.pages.Keys
    ensures Fresh(after, base)
  {
    hide Fresh;
    SameIdsFresh(t, after, base);
  }

  lemma CreatePageFresh(t: Tables, page: Pages.NewPage, base: Uuid)
    requires Fresh(t, base)
    ensures Fresh(Pages.CreatePage(t, page, base).0, base + 1)
  {
    hide Fresh, Pages.ValidateUrl, Conflicts;
    FreshUnderMore(t, base, base + 1);
    var after := Pages.CreatePage(t, page, base).0;
    if base in after.pages {
      PageRowFresh(t, after.pages[base], base);
    }
  }

  /** At most one redirect row is written, under an old id or the drawn one. */
  lemma RedirectWritten(t: Tables, after: Tables, id: Uuid, base: Uuid, next: Uuid)
    requires Fresh(t, base) && base <= next && (id in t.redirects || id < next)
    requires after == t || (id in after.redirects && after == t.(redirects := t.redirects[id := after.redirects[id]]))
    ensures Fresh(after, next)
  {
    assert id in t.redirects ==> id < base;
    hide Fresh;
    FreshUnderMore(t, base, next);
    if after != t {
      RedirectRowFresh(t, id, after.redirects[id], next);
    }
  }

  lemma RedirectsFresh(t: Tables, e: Event, base: Uuid)
    requires Fresh(t, base) && (e.CreateRedirect? || e.PatchRedirect? || e.DeleteRedirect? || e.RecordRedirect?)
    ensures Fresh(Next(t, e, base), base + Draws(t, e))
  {
    hide Fresh, Redirects.ValidateRedirect, Pages.RedirectTaken, Redirects.OtherHasFrom;
    match e
    case CreateRedirect(w, kind, from, to) => RedirectWritten(t, Redirects.Create(t, w, kind, from, to, base).0, base, base, base + 1);
    case PatchRedirect(id, p) => PatchWritten(t, id, p, base);
    case DeleteRedirect(id) => DeleteWritten(t, id, base);
    case RecordRedirect(w, from, to, kind) => RedirectWritten(t, Redirects.Record(t, w, from, to, kind, base).0, base, base, base + 1);
  }

  lemma PatchWritten(t: Tables, id: Uuid, p: Redirects.Patch, base: Uuid)
    requires Fresh(t, base)
    ensures Fresh(Redirects.PatchRedirect(t, id, p).0, base)
  {
    hide Fresh, Redirects.ValidateRedirect;
    var after := Redirects.PatchRedirect(t, id, p).0;
    if after != t {
      RedirectWritten(t, after, id, base, base);
    }
  }

  lemma DeleteWritten(t: Tables, id: Uuid, base: Uuid)
    requires Fresh(t, base)
    ensures Fresh(Redirects.Delete(t, id).0, base)
  {
    hide Fresh;
    var after := Redirects.Delete(t, id).0;
    if after != t {
      RedirectWritten(t, after, id, base, base);
    }
  }

  // ---- whole runs ----

  /** A run, latest event last. */
  datatype Run = Begin | Then(before: Run, event: Event)

  datatype State = State(tables: Tables, next: Uuid)

  function After(init: State, run: Run): State {
    match run
    case Begin => init
    case Then(before, e) =>
      var s := After(init, before);
      State(Next(s.tables, e, s.next), s.next + Draws(s.tables, e))
  }

  ghost predicate Whole(s: State) {
    SiteOk(s.tables) && Fresh(s.tables, s.next)
  }

  /** What a caller can look up before the event: it takes no live website's homepage page or url from the other. */
  predicate KeepsHomes(t: Tables, e: Event) {
    match e
    case DeletePage(id) => LivePage(t, id) ==> !IsSomeHome(t, t.pages[id])
    case PatchPage(id, url) => PatchPageUrl(t, id, url).1.Ok? ==> url == t.pages[id].content.url || !IsSomeHome(t, t.pages[id])
    case PatchHome(w, url) => Absolute(url) && w in t.websites ==> url == t.websites[w].homepageUrl || !t.websites[w].live
    case _ => true
  }

  predicate AllKeepHomes(init: State, run: Run) {
    match run
    case Begin => true
    case Then(before, e) => AllKeepHomes(init, before) && KeepsHomes(After(init, before).tables, e)
  }

  /** At every moment of the run. */
  ghost predicate AlwaysWhole(init: State, run: Run) {
    Whole(After(init, run)) && (run.Then? ==> AlwaysWhole(init, run.before))
  }

  /** Every event keeps the tables in order, and the homes exactly if it is one that keeps them. */
  lemma NextKeeps(t: Tables, e: Event, base: Uuid)
    requires TablesOk(t) && Fresh(t, base)
    ensures TablesOk(Next(t, e, base))
    ensures HomesOk(t) ==> (HomesOk(Next(t, e, base)) <==> KeepsHomes(t, e))
  {
    hide TablesOk, HomesOk, Fresh, IsSomeHome, PatchPageUrl, PatchHomepageUrl, PatchLangCode, Pages.DeleteSpecific;
    match e
    case CreateSite(site) => CreateWebsiteOk(t, site, base);
    case CreatePage(page) => CreatePageOk(t, page, base);
    case RenamePage(id, url, redirect) => RenameOk(t, id, url, redirect, base);
    case PublishPage(id, at) => EditedOk(t, Pages.PublishPage(t, id, at).0, id);
    case UnpublishPage(id) => EditedOk(t, Pages.UnpublishPage(t, id).0, id);
    case ForkPage(key, w) => ForkOk(t, key, w, base);
    case DeleteGeneric(key) => FanoutOk(t, key, base);
    case CreateRedirect(w, kind, from, to) => CreateRedirectOk(t, w, kind, from, to, base);
    case PatchRedirect(id, p) => PatchRedirectOk(t, id, p);
    case DeleteRedirect(id) => DeleteRedirectOk(t, id);
    case RecordRedirect(w, from, to, kind) => RecordRedirectOk(t, w, from, to, kind, base);
    case DeletePage(id) => DeletePageOkIff(t, id);
    case PatchPage(id, url) => PatchPageOkIff(t, id, url);
    case PatchHome(w, url) => PatchHomeOkIff(t, w, url);
    case PatchLang(w, code) => PatchLangOk(t, w, code);
  }

  lemma DeletePageOkIff(t: Tables, id: Uuid)
    requires TablesOk(t)
    ensures TablesOk(Pages.DeleteSpecific(t, id).0)
    ensures HomesOk(t) ==> (HomesOk(Pages.DeleteSpecific(t, id).0) <==> (LivePage(t, id) ==> !IsSomeHome(t, t.pages[id])))
  {
    if LivePage(t, id) && t.pages[id].website.Some? {
      DeadPageOk(t, Pages.DeleteSpecific(t, id).0, id);
      hide PagesOk, RedirectsOk, HomesOk;
      if HomesOk(t) {
        DeleteSpecificKeepsHomes(t, id, t.pages[id].website.value);
      }
    }
  }

  lemma PatchPageOkIff(t: Tables, id: Uuid, url: string)
    requires TablesOk(t)
    ensures TablesOk(PatchPageUrl(t, id, url).0) && (PatchPageUrl(t, id, url).1.Ok? ==> LivePage(t, id))
    ensures HomesOk(t) ==> (HomesOk(PatchPageUrl(t, id, url).0)
      <==> (PatchPageUrl(t, id, url).1.Ok? ==>
              url == t.pages[id].content.url || !IsSomeHome(t, t.pages[id])))
  {
    hide PagesOk, RedirectsOk, HomesOk, IsSomeHome, Pages.UrlOccupied;
    if PatchPageUrl(t, id, url).1.Ok? {
      PatchedPagesOk(t, PatchPageUrl(t, id, url).0, id, url);
      if HomesOk(t) {
        PatchPageUrlKeepsHomes(t, id, url);
      }
    }
  }

  lemma PatchHomeOkIff(t: Tables, w: Uuid, url: string)
    requires TablesOk(t)
    ensures TablesOk(PatchHomepageUrl(t, w, url))
    ensures HomesOk(t) ==> (HomesOk(PatchHomepageUrl(t, w, url))
      <==> (Absolute(url) && w in t.websites ==> url == t.websites[w].homepageUrl || !t.websites[w].live))
  {
    SitesEdited(t, PatchHomepageUrl(t, w, url));
    hide PagesOk, RedirectsOk, HomesOk;
    if Absolute(url) && w in t.websites && HomesOk(t) {
      PatchHomepageUrlKeepsHomes(t, w, url);
    }
  }

  lemma SitesEdited(t: Tables, after: Tables)
    requires TablesOk(t) && after == t.(websites := after.websites) && after.websites.Keys == t.websites.Keys
    ensures TablesOk(after)
  {
  }

  /** The sites are whole at every moment of a run if and only if none of its events met one of the three conditions. */
  lemma {:induction false} WholeIffHomesKept(init: State, run: Run)
    requires Whole(init)
    ensures AlwaysWhole(init, run) <==> AllKeepHomes(init, run)
  {
    hide TablesOk, HomesOk, Fresh, Next, Draws, KeepsHomes;
    match run
    case Begin =>
    case Then(before, e) =>
      WholeIffHomesKept(init, before);
      RunKeepsTables(init, run);
      if AlwaysWhole(init, before) {
        var s := After(init, before);
        assert Whole(s);
        NextKeeps(s.tables, e, s.next);
      }
  }

  /** The rest of the invariant holds after every run. */
  lemma {:induction false} RunKeepsTables(init: State, run: Run)
    requires TablesOk(init.tables) && Fresh(init.tables, init.next)
    ensures TablesOk(After(init, run).tables) && Fresh(After(init, run).tables, After(init, run).next)
  {
    hide TablesOk, HomesOk, Fresh, Next, Draws, KeepsHomes;
    match run
    case Begin =>
    case Then(before, e) =>
      RunKeepsTables(init, before);
      var s := After(init, before);
      NextFresh(s.tables, e, s.next);
      NextKeeps(s.tables, e, s.next);
  }

  const EMPTY := State(Tables(map[], map[], map[], map[], map[], map[], {}), 0)

  lemma EmptyIsWhole()
    ensures Whole(EMPTY)
  {
  }

  /**
   After any run from empty tables every live redirect is well formed and the only answer at its path;
   and if its events keep the homes, as all do but the delete of a page and two of the patches, every
   live website resolves its homepage to its own live page, at the url its row names.
   */
  lemma SitesStayWhole(run: Run, w: Uuid, r: Uuid)
    ensures var t := After(EMPTY, run).tables;
      && (AllKeepHomes(EMPTY, run) && w in t.websites && t.websites[w].live ==> HomeResolves(t, w))
      && (r in t.redirects && t.redirects[r].live ==>
            RedirectOk(t.redirects[r]) && Redirects.AnswerFor(t, t.redirects[r].website, t.redirects[r].urlFrom) == Some(t.redirects[r]))
  {
    EmptyIsWhole();
    RunKeepsTables(EMPTY, run);
    WholeIffHomesKept(EMPTY, run);
    hide AllKeepHomes, After;
    var t := After(EMPTY, run).tables;
    if AllKeepHomes(EMPTY, run) && w in t.websites && t.websites[w].live {
      assert Whole(After(EMPTY, run));
      HomeIsResolved(t, w);
    }
    if r in t.redirects && t.redirects[r].live {
      OnlyAnswer(t, r);
    }
  }

  predicate HomeResolves(t: Tables, w: Uuid)
    requires w in t.websites
  {
    var home := ResolveSpecific(t, Websites.HOMEPAGE, w);
    home.Specific? && LivePage(t, home.id) && t.pages[home.id].content.url == t.websites[w].homepageUrl
  }

  lemma HomeIsResolved(t: Tables, w: Uuid)
    requires SiteOk(t) && w in t.websites && t.websites[w].live
    ensures HomeResolves(t, w)
  {
    assert HasHome(t, w);
    var h :| IsHome(t, w, h);
    SlotHolds(t, h);
  }

  lemma OnlyAnswer(t: Tables, r: Uuid)
    requires RedirectsOk(t) && r in t.redirects && t.redirects[r].live
    ensures Redirects.AnswerFor(t, t.redirects[r].website, t.redirects[r].urlFrom) == Some(t.redirects[r])
  {
    hide RedirectOk;
    assert r in Redirects.AnswerIds(t, t.redirects[r].website, t.redirects[r].urlFrom);
  }

  // ---- the verbs that can break it ----

  /** Deleting a specific keeps the invariant exactly when it is not the homepage of a live website. */
  lemma DeleteSpecificKeepsHomes(t: Tables, id: Uuid, w: Uuid)
    requires SiteOk(t) && LivePage(t, id) && t.pages[id].website == Some(w)
    ensures SiteOk(Pages.DeleteSpecific(t, id).0)
      <==> !(t.pages[id].key == Websites.HOMEPAGE && w in t.websites && t.websites[w].live)
  {
    var after := Pages.DeleteSpecific(t, id).0;
    if t.pages[id].key == Websites.HOMEPAGE && w in t.websites && t.websites[w].live {
      HomeIsGone(t, after, id, w);
    } else {
      HomesSurvive(t, after, id, w);
      DeadPageOk(t, after, id);
    }
  }

  lemma HomeIsGone(t: Tables, after: Tables, id: Uuid, w: Uuid)
    requires Indexed(t) && LivePage(t, id) && t.pages[id].website == Some(w) && t.pages[id].key == Websites.HOMEPAGE
    requires after.pages == t.pages[id := t.pages[id].(live := false)] && after.websites == t.websites && w in t.websites
    ensures !HasHome(after, w)
  {
  }

  lemma HomesSurvive(t: Tables, after: Tables, id: Uuid, w: Uuid)
    requires HomesOk(t) && LivePage(t, id) && t.pages[id].website == Some(w)
    requires !(t.pages[id].key == Websites.HOMEPAGE && w in t.websites && t.websites[w].live)
    requires after.pages == t.pages[id := t.pages[id].(live := false)] && after.websites == t.websites
    ensures HomesOk(after)
  {
    forall v | v in after.websites && after.websites[v].live ensures HasHome(after, v) {
      assert HasHome(t, v);
      var h :| IsHome(t, v, h);
      assert IsHome(after, v, h);
    }
  }

  lemma DeadPageOk(t: Tables, after: Tables, id: Uuid)
    requires PagesOk(t) && RedirectsOk(t) && LivePage(t, id) && after.redirects == t.redirects
    requires after.pages == t.pages[id := t.pages[id].(live := false)] && after.websites == t.websites
    ensures PagesOk(after) && RedirectsOk(after)
  {
  }

  /** The url arm of the page patch: unlike the rename it leaves menus and website alone. */
  function PatchPageUrl(t: Tables, id: Uuid, url: string): (Tables, Result<(), Pages.PageError>) {
    if Pages.ValidateUrl(url).Err? then (t, Err(Pages.InvalidInput))
    else if !LivePage(t, id) then (t, Err(Pages.NotFound))
    else if Pages.UrlOccupied(t, id, url) then (t, Err(Pages.SpecificityConflict))
    else (t.(pages := t.pages[id := Pages.WithUrl(t.pages[id], url)]), Ok(()))
  }

  /** Patching a page's url keeps the invariant exactly when the page is no live website's homepage, or the url stays. */
  lemma PatchPageUrlKeepsHomes(t: Tables, id: Uuid, url: string)
    requires SiteOk(t) && PatchPageUrl(t, id, url).1.Ok?
    ensures LivePage(t, id)
    ensures SiteOk(PatchPageUrl(t, id, url).0) <==> (url == t.pages[id].content.url || !IsSomeHome(t, t.pages[id]))
  {
    var after, page := PatchPageUrl(t, id, url).0, t.pages[id];
    if url != page.content.url && IsSomeHome(t, page) {
      HomeMovedAlone(t, after, id, page.website.value);
    } else {
      PatchedHomesOk(t, after, id, url);
      PatchedPagesOk(t, after, id, url);
    }
  }

  predicate IsSomeHome(t: Tables, page: Page) {
    page.key == Websites.HOMEPAGE && page.website.Some? && page.website.value in t.websites && t.websites[page.website.value].live
  }

  lemma HomeMovedAlone(t: Tables, after: Tables, id: Uuid, w: Uuid)
    requires SiteOk(t) && LivePage(t, id) && IsSomeHome(t, t.pages[id]) && t.pages[id].website == Some(w)
    requires id in after.pages && after.pages == t.pages[id := after.pages[id]] && after.websites == t.websites
    requires after.pages[id].content.url != t.pages[id].content.url
    ensures !HasHome(after, w)
  {
  }

  lemma PatchedHomesOk(t: Tables, after: Tables, id: Uuid, url: string)
    requires SiteOk(t) && LivePage(t, id) && after == t.(pages := t.pages[id := Pages.WithUrl(t.pages[id], url)])
    requires url == t.pages[id].content.url || !IsSomeHome(t, t.pages[id])
    ensures HomesOk(after)
  {
    forall v | v in after.websites && after.websites[v].live ensures HasHome(after, v) {
      assert HasHome(t, v);
      var h :| IsHome(t, v, h);
      assert IsHome(after, v, h);
    }
  }

  lemma PatchedPagesOk(t: Tables, after: Tables, id: Uuid, url: string)
    requires TablesOk(t) && LivePage(t, id) && after == t.(pages := t.pages[id := Pages.WithUrl(t.pages[id], url)])
    requires Pages.ValidateUrl(url).Ok? && !Pages.UrlOccupied(t, id, url)
    ensures PagesOk(after) && RedirectsOk(after)
  {
    hide HomesOk, RedirectsOk, PagesOk;
    Framed(t, after);
    ReurledPagesOk(t, after, id, url);
  }

  /** The homepage_url arm of the website patch: it moves no page. */
  function PatchHomepageUrl(t: Tables, w: Uuid, url: string): Tables {
    if Absolute(url) && w in t.websites then t.(websites := t.websites[w := t.websites[w].(homepageUrl := url)]) else t
  }

  /** Patching a website's homepage url keeps the invariant exactly when it changes nothing, or the website is not live. */
  lemma PatchHomepageUrlKeepsHomes(t: Tables, w: Uuid, url: string)
    requires SiteOk(t) && Absolute(url) && w in t.websites
    ensures SiteOk(PatchHomepageUrl(t, w, url)) <==> (url == t.websites[w].homepageUrl || !t.websites[w].live)
  {
    var after := PatchHomepageUrl(t, w, url);
    if url != t.websites[w].homepageUrl && t.websites[w].live {
      assert HasHome(t, w);
      var home :| IsHome(t, w, home);
      forall h ensures !IsHome(after, w, h) {
        assert h != home && LivePage(t, h) ==> !Clash(t.pages[h], t.pages[home]);
      }
      assert !HasHome(after, w);
    } else {
      forall v | v in after.websites && after.websites[v].live ensures HasHome(after, v) {
        assert HasHome(t, v);
        var h :| IsHome(t, v, h);
        assert IsHome(after, v, h);
      }
      hide HomesOk, RedirectsOk;
      Framed(t, after);
    }
  }

  /** The default_lang_code arm of the website patch. */
  function PatchLangCode(t: Tables, w: Uuid, code: string): Tables {
    if w in t.websites then t.(websites := t.websites[w := t.websites[w].(lang := code)]) else t
  }

  lemma PatchLangOk(t: Tables, w: Uuid, code: string)
    requires TablesOk(t)
    ensures Keeps(t, PatchLangCode(t, w, code))
  {
    SitesEdited(t, PatchLangCode(t, w, code));
    HomesStayAtHome(t, PatchLangCode(t, w, code));
    hide PagesOk, RedirectsOk, HomesOk;
  }

  /** The language is no part of a home. */
  lemma HomesStayAtHome(t: Tables, after: Tables)
    requires after.pages == t.pages && after.websites.Keys == t.websites.Keys
    requires forall v :: v in t.websites ==> after.websites[v] == t.websites[v].(lang := after.websites[v].lang)
    ensures HomesOk(t) ==> HomesOk(after)
  {
    forall v | HomesOk(t) && v in after.websites && after.websites[v].live ensures HasHome(after, v) {
      assert HasHome(t, v);
      var h :| IsHome(t, v, h);
      assert IsHome(after, v, h);
    }
  }

  // ---- what the patches write ----

  /** The url arm of the page patch: accepted like a rename without a redirect; it moves the page alone, no menu and no website follows. */
  lemma PatchPageUrlTouches(t: Tables, id: Uuid, url: string)
    requires Indexed(t)
    ensures var (after, r) := PatchPageUrl(t, id, url);
      if Pages.ValidateUrl(url).Err? then r == Err(Pages.InvalidInput) && after == t
      else if id !in t.pages || !t.pages[id].live then r == Err(Pages.NotFound) && after == t
      else if UrlSlot(t, url, t.pages[id].website) !in {None, Some(id)} then r == Err(Pages.SpecificityConflict) && after == t
      else r == Ok(()) && after == t.(pages := t.pages[id := t.pages[id].(content := t.pages[id].content.(url := url))])
  {
    hide Pages.ValidateUrl;
    if LivePage(t, id) {
      PageProofs.OccupiedIs(t, id, url);
    }
  }

  /** The two arms of the website patch change that one column of that one website. */
  lemma PatchSiteTouches(t: Tables, w: Uuid, url: string, code: string)
    requires w in t.websites
    ensures PatchLangCode(t, w, code) == t.(websites := t.websites[w := t.websites[w].(lang := code)])
    ensures PatchHomepageUrl(t, w, url)
      == if Absolute(url) then t.(websites := t.websites[w := t.websites[w].(homepageUrl := url)]) else t
  {
  }
}
