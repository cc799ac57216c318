/**
 Whole serial runs of the content verbs: every live website keeps a homepage of its own at the url
 the website row names, live page urls stay site-absolute and unique, and live redirects stay well
 formed, one per path.
 */
module SiteRuns {
  import opened Common
  import opened Schema
  import opened Specificity
  import opened Text
  import opened Versioning
  import Pages
  import Redirects
  import Websites

  // ---- the invariant ----

  /** The page is the live specific homepage of the website, at the website's homepage url. */
  predicate IsHome(t: Tables, w: Uuid, h: Uuid)
    requires w in t.websites
  {
    && LivePage(t, h) && t.pages[h].key == Websites.HOMEPAGE && t.pages[h].website == Some(w)
    && t.pages[h].content.url == t.websites[w].homepageUrl
  }

  ghost predicate HasHome(t: Tables, w: Uuid)
    requires w in t.websites
  {
    exists h :: IsHome(t, w, h)
  }

  ghost predicate HomesOk(t: Tables) {
    forall w :: w in t.websites && t.websites[w].live ==> HasHome(t, w)
  }

  ghost predicate UrlsOk(t: Tables) {
    forall id :: LivePage(t, id) ==> Absolute(t.pages[id].content.url)
  }

  ghost predicate OwnersOk(t: Tables) {
    forall id :: id in t.pages && t.pages[id].website.Some? ==> t.pages[id].website.value in t.websites
  }

  /** Unique indexes, site-absolute urls, and pages of known websites only. */
  ghost predicate PagesOk(t: Tables) {
    Indexed(t) && UrlsOk(t) && OwnersOk(t)
  }

  predicate RedirectOk(r: Redirect) {
    && Absolute(r.urlFrom) && (r.urlTo.Some? <==> !r.kind.Gone404?)
    && (r.kind.Moved301? || r.kind.Found302? ==> Absolute(r.urlTo.value))
  }

  ghost predicate RedirectsOk(t: Tables) {
    && Redirects.OneAnswerPerPath(t)
    && forall r :: r in t.redirects && t.redirects[r].live ==> RedirectOk(t.redirects[r])
  }

  /** The part of the invariant that every verb keeps. */
  ghost predicate TablesOk(t: Tables) {
    PagesOk(t) && RedirectsOk(t)
  }

  ghost predicate SiteOk(t: Tables) {
    TablesOk(t) && HomesOk(t)
  }

  /** The step keeps the tables in order, and the homes if they were. */
  ghost predicate Keeps(t: Tables, t': Tables) {
    TablesOk(t') && (HomesOk(t) ==> HomesOk(t'))
  }

  // ---- pages ----

  /** A row the indexes accept joins the table. */
  lemma PageAdded(t: Tables, t': Tables, id: Uuid, row: Page)
    requires PagesOk(t) && !Conflicts(t, id, row) && t'.pages == t.pages[id := row] && t.websites.Keys <= t'.websites.Keys
    requires Absolute(row.content.url) && (row.website.Some? ==> row.website.value in t'.websites)
    ensures PagesOk(t')
  {
  }

  lemma HomeStays(t: Tables, t': Tables, id: Uuid, row: Page, w: Uuid)
    requires id !in t.pages && t'.pages == t.pages[id := row]
    requires w in t.websites && w in t'.websites && t'.websites[w] == t.websites[w] && HasHome(t, w)
    ensures HasHome(t', w)
  {
    var h :| IsHome(t, w, h);
    assert IsHome(t', w, h);
  }

  lemma HomesStay(t: Tables, t': Tables, id: Uuid, row: Page)
    requires id !in t.pages && t'.pages == t.pages[id := row] && t'.websites == t.websites
    ensures HomesOk(t) ==> HomesOk(t')
  {
    forall w | HomesOk(t) && w in t'.websites && t'.websites[w].live ensures HasHome(t', w) {
      HomeStays(t, t', id, row, w);
    }
  }

  /** Only the pages and the websites matter to pages and homepages, only the redirects to redirects. */
  lemma Framed(t: Tables, t': Tables)
    ensures PagesOk(t) && t'.pages == t.pages && t'.websites == t.websites ==> PagesOk(t')
    ensures HomesOk(t) && t'.pages == t.pages && t'.websites == t.websites ==> HomesOk(t')
    ensures RedirectsOk(t) && t'.redirects == t.redirects ==> RedirectsOk(t')
  {
    if HomesOk(t) && t'.pages == t.pages && t'.websites == t.websites {
      forall w | w in t'.websites && t'.websites[w].live ensures HasHome(t', w) {
        var h :| IsHome(t, w, h);
        assert IsHome(t', w, h);
      }
    }
  }

  lemma CreatePageOk(t: Tables, input: Pages.NewPage, newId: Uuid)
    requires TablesOk(t)
    ensures Keeps(t, Pages.CreatePage(t, input, newId).0)
  {
    var t' := Pages.CreatePage(t, input, newId).0;
    Framed(t, t');
    if Pages.CreatePage(t, input, newId).1.Ok? {
      hide PagesOk, HomesOk, RedirectsOk;
      var row := t'.pages[newId];
      PageAdded(t, t', newId, row);
      HomesStay(t, t', newId, row);
    }
  }

  lemma CopyOk(t: Tables, generic: Uuid, w: Uuid, newId: Uuid)
    requires TablesOk(t) && CopyLands(t, generic, w, newId) && w in t.websites
    ensures Keeps(t, WithCopy(t, generic, w, newId))
  {
    var t' := WithCopy(t, generic, w, newId);
    var row := SpecificCopy(t.pages[generic], generic, w);
    assert Absolute(row.content.url);
    hide PagesOk, HomesOk, RedirectsOk;
    PageAdded(t, t', newId, row);
    HomesStay(t, t', newId, row);
    Framed(t, t');
  }

  lemma ForkOk(t: Tables, key: string, w: Uuid, newId: Uuid)
    requires TablesOk(t)
    ensures Keeps(t, Fork(t, key, w, newId).0)
  {
    hide PagesOk, HomesOk, RedirectsOk;
    if Fork(t, key, w, newId).1 == Ok(Created(newId)) && KeySlot(t, key, Some(w)).None? {
      var generic := ResolveGeneric(t, key).value;
      CopyOk(t, generic, w, newId);
      MenusAside(WithCopy(t, generic, w, newId), Fork(t, key, w, newId).0.menus);
    }
  }

  lemma MenusAside(t: Tables, menus: map<Uuid, Menu>)
    requires TablesOk(t)
    ensures Keeps(t, t.(menus := menus))
  {
    hide PagesOk, HomesOk, RedirectsOk;
    Framed(t, t.(menus := menus));
  }

  lemma {:induction false} CopyAllOk(t: Tables, generic: Uuid, targets: seq<Uuid>, base: Uuid, n: nat)
    requires TablesOk(t) && n <= |targets| && forall w :: w in targets ==> w in t.websites
    ensures Keeps(t, CopyAll(t, generic, targets, base, n).tables)
    ensures CopyAll(t, generic, targets, base, n).tables.websites == t.websites
  {
    hide PagesOk, HomesOk, RedirectsOk;
    if n > 0 {
      CopyAllOk(t, generic, targets, base, n - 1);
      var c, w, newId := CopyAll(t, generic, targets, base, n - 1), targets[n - 1], base + n - 1;
      assert w in targets;
      if CopyLands(c.tables, generic, w, newId) {
        CopyOk(c.tables, generic, w, newId);
      }
    }
  }

  /** The death of a generic takes no website's homepage. */
  lemma GenericDies(t: Tables, t': Tables, generic: Uuid)
    requires TablesOk(t) && generic in t.pages && t.pages[generic].website.None?
    requires t'.pages == SoftDeleted(t.pages, generic) && t'.websites == t.websites && t'.redirects == t.redirects
    ensures Keeps(t, t')
  {
    Framed(t, t');
    forall w | HomesOk(t) && w in t'.websites && t'.websites[w].live ensures HasHome(t', w) {
      var h :| IsHome(t, w, h);
      assert IsHome(t', w, h);
    }
  }

  lemma {:induction false} CopyAllKeepsGeneric(t: Tables, generic: Uuid, targets: seq<Uuid>, base: Uuid, n: nat)
    requires generic in t.pages && generic < base && n <= |targets|
    ensures var c := CopyAll(t, generic, targets, base, n).tables;
      generic in c.pages && c.pages[generic] == t.pages[generic]
  {
    if n > 0 {
      CopyAllKeepsGeneric(t, generic, targets, base, n - 1);
    }
  }

  lemma GenericIs(t: Tables, key: string)
    ensures var g := ResolveGeneric(t, key);
      g.Some? ==> LivePage(t, g.value) && t.pages[g.value].website.None? && t.pages[g.value].key == key
  {
    var g := ResolveGeneric(t, key);
    assert g.Some? ==> g.value in KeyIds(t, key, None);
  }

  lemma TargetsAreWebsites(t: Tables, key: string)
    ensures forall w :: w in FanoutTargets(t, key) ==> w in t.websites
  {
  }

  lemma FanoutOk(t: Tables, key: string, base: Uuid)
    requires TablesOk(t) && Fresh(t, base)
    ensures Keeps(t, DeleteWithFanout(t, key, base).0)
  {
    GenericIs(t, key);
    TargetsAreWebsites(t, key);
    hide PagesOk, HomesOk, RedirectsOk, CopyAll, SoftDeleted, RepointedToSpecifics, ResolveGeneric, FanoutTargets;
    if ResolveGeneric(t, key).Some? {
      var generic, targets := ResolveGeneric(t, key).value, FanoutTargets(t, key);
      assert generic < base;
      hide Fresh;
      var n := |targets|;
      CopyAllKeepsGeneric(t, generic, targets, base, n);
      CopyAllOk(t, generic, targets, base, n);
      var c := CopyAll(t, generic, targets, base, n).tables;
      GenericDies(c, DeleteWithFanout(t, key, base).0, generic);
    }
  }

  // ---- rename ----

  /** The page at another url, every other page and website row kept. */
  ghost predicate Reurled(t: Tables, after: Tables, id: Uuid, url: string) {
    LivePage(t, id) && after.pages == t.pages[id := Pages.WithUrl(t.pages[id], url)] && after.websites.Keys == t.websites.Keys
  }

  lemma ReurledIndexed(t: Tables, after: Tables, id: Uuid, url: string)
    requires Indexed(t) && Reurled(t, after, id, url) && !Pages.UrlOccupied(t, id, url)
    ensures Indexed(after)
  {
    forall i, j | LivePage(after, i) && LivePage(after, j) && i != j ensures !Clash(after.pages[i], after.pages[j]) {
      assert !Clash(t.pages[i], t.pages[j]);
    }
  }

  lemma ReurledUrls(t: Tables, after: Tables, id: Uuid, url: string)
    requires UrlsOk(t) && OwnersOk(t) && Reurled(t, after, id, url) && Absolute(url)
    ensures UrlsOk(after) && OwnersOk(after)
  {
  }

  lemma ReurledPagesOk(t: Tables, after: Tables, id: Uuid, url: string)
    requires PagesOk(t) && Reurled(t, after, id, url) && Absolute(url) && !Pages.UrlOccupied(t, id, url)
    ensures PagesOk(after)
  {
    hide Indexed, UrlsOk, OwnersOk, Reurled;
    ReurledIndexed(t, after, id, url);
    ReurledUrls(t, after, id, url);
  }

  lemma MovedReurls(t: Tables, id: Uuid, url: string)
    requires LivePage(t, id)
    ensures Reurled(t, Pages.Moved(t, id, url), id, url)
    ensures Pages.Moved(t, id, url).redirects == t.redirects && Pages.Moved(t, id, url).blocks == t.blocks
  {
  }

  /** When the homepage moves the website row follows; no other page sits at the homepage url, and no other's move touches it. */
  lemma MovedHome(t: Tables, id: Uuid, url: string, w: Uuid)
    requires Indexed(t) && LivePage(t, id) && w in t.websites && HasHome(t, w)
    ensures w in Pages.Moved(t, id, url).websites && HasHome(Pages.Moved(t, id, url), w)
    ensures Pages.Moved(t, id, url).websites[w] == if IsHome(t, w, id) then t.websites[w].(homepageUrl := url) else t.websites[w]
  {
    var after := Pages.Moved(t, id, url);
    var h :| IsHome(t, w, h);
    assert h != id && t.pages[id].website == Some(w) ==> t.pages[id].content.url != t.pages[h].content.url by {
      assert h != id ==> !Clash(t.pages[h], t.pages[id]);
    }
    assert IsHome(after, w, h);
  }

  lemma MovedOk(t: Tables, id: Uuid, url: string)
    requires TablesOk(t) && LivePage(t, id) && Absolute(url) && !Pages.UrlOccupied(t, id, url)
    ensures Keeps(t, Pages.Moved(t, id, url))
  {
    var after := Pages.Moved(t, id, url);
    forall w | HomesOk(t) && w in after.websites && after.websites[w].live ensures HasHome(after, w) {
      assert w in t.websites && t.websites[w].live;
      MovedHome(t, id, url, w);
    }
    hide HomesOk;
    MovedReurls(t, id, url);
    ReurledPagesOk(t, after, id, url);
    Framed(t, after);
  }

  // ---- publish ----

  /** One page edited in columns neither the indexes nor the homepages look at. */
  ghost predicate Edited(t: Tables, after: Tables, id: Uuid) {
    && id in t.pages && id in after.pages && after == t.(pages := t.pages[id := after.pages[id]])
    && var p, q := t.pages[id], after.pages[id];
       q.live == p.live && q.key == p.key && q.website == p.website && q.content.url == p.content.url
  }

  lemma EditedOk(t: Tables, after: Tables, id: Uuid)
    requires TablesOk(t) && (after == t || Edited(t, after, id))
    ensures Keeps(t, after)
  {
    if after != t {
      EditedPagesOk(t, after, id);
      EditedHomesOk(t, after, id);
      hide PagesOk, HomesOk;
      Framed(t, after);
    }
  }

  lemma EditedPagesOk(t: Tables, after: Tables, id: Uuid)
    requires PagesOk(t) && Edited(t, after, id)
    ensures PagesOk(after)
  {
    forall i, j | LivePage(after, i) && LivePage(after, j) && i != j ensures !Clash(after.pages[i], after.pages[j]) {
      assert !Clash(t.pages[i], t.pages[j]);
    }
  }

  lemma EditedHomesOk(t: Tables, after: Tables, id: Uuid)
    requires Edited(t, after, id)
    ensures HomesOk(t) ==> HomesOk(after)
  {
    forall w | HomesOk(t) && w in after.websites && after.websites[w].live ensures HasHome(after, w) {
      assert HasHome(t, w);
      var h :| IsHome(t, w, h);
      assert IsHome(after, w, h);
    }
  }

  // ---- redirects ----

  lemma RedirectAdded(t: Tables, t': Tables, id: Uuid, row: Redirect)
    requires TablesOk(t) && !Pages.RedirectTaken(t, id, row.website, row.urlFrom) && RedirectOk(row)
    requires t' == t.(redirects := t.redirects[id := row])
    ensures Keeps(t, t')
  {
    hide PagesOk, HomesOk;
    Framed(t, t');
  }

  lemma RenameOk(t: Tables, id: Uuid, url: string, redirect: Option<int>, redirectId: Uuid)
    requires TablesOk(t)
    ensures Keeps(t, Pages.RenamePage(t, id, url, redirect, redirectId).0)
  {
    if Pages.RenamePage(t, id, url, redirect, redirectId).1.Ok? {
      MovedOk(t, id, url);
      assert Absolute(t.pages[id].content.url);
      hide PagesOk, HomesOk, RedirectsOk, Pages.Moved;
      var moved := Pages.Moved(t, id, url);
      if redirect.Some? && Pages.RenameRedirect(moved, t.pages[id], url, redirect.value, redirectId).0 != moved {
        var row := Redirect(t.pages[id].website.value, t.pages[id].content.url, Pages.RenameKind(redirect.value).value, Some(url), true);
        RedirectAdded(moved, Pages.RenameRedirect(moved, t.pages[id], url, redirect.value, redirectId).0, redirectId, row);
      }
    }
  }

  lemma ValidatedIsOk(kind: string, urlFrom: string, urlTo: Option<string>, w: Uuid)
    requires Redirects.ValidateRedirect(kind, urlFrom, urlTo).Ok?
    ensures RedirectOk(Redirect(w, urlFrom, Redirects.ValidateRedirect(kind, urlFrom, urlTo).value, urlTo, true))
    ensures RedirectOk(Redirect(w, Trim(urlFrom), Redirects.ValidateRedirect(kind, urlFrom, urlTo).value, urlTo, true))
  {
    hide Redirects.ParamParityHolds;
    TrimKeepsAbsolute(urlFrom);
  }

  lemma CreateRedirectOk(t: Tables, w: Uuid, kind: string, urlFrom: string, urlTo: Option<string>, newId: Uuid)
    requires TablesOk(t)
    ensures Keeps(t, Redirects.Create(t, w, kind, urlFrom, urlTo, newId).0)
  {
    hide PagesOk, HomesOk, RedirectsOk, Redirects.ValidateRedirect, RedirectOk;
    var after := Redirects.Create(t, w, kind, urlFrom, urlTo, newId).0;
    if Redirects.Create(t, w, kind, urlFrom, urlTo, newId).1.Ok? {
      ValidatedIsOk(kind, urlFrom, urlTo, w);
      RedirectAdded(t, after, newId, after.redirects[newId]);
    }
  }

  lemma RecordRedirectOk(t: Tables, w: Uuid, urlFrom: string, urlTo: string, kind: string, newId: Uuid)
    requires TablesOk(t)
    ensures Keeps(t, Redirects.Record(t, w, urlFrom, urlTo, kind, newId).0)
  {
    hide PagesOk, HomesOk, RedirectsOk, Redirects.ValidateRedirect, RedirectOk;
    var after := Redirects.Record(t, w, urlFrom, urlTo, kind, newId).0;
    if after != t {
      ValidatedIsOk(kind, urlFrom, if kind == "gone_404" then None else Some(urlTo), w);
      RedirectAdded(t, after, newId, after.redirects[newId]);
    }
  }

  lemma RedirectChanged(t: Tables, t': Tables, id: Uuid, row: Redirect)
    requires TablesOk(t) && id in t.redirects && row.website == t.redirects[id].website && RedirectOk(row)
    requires !Redirects.OtherHasFrom(t, id, row.website, row.urlFrom)
    requires t' == t.(redirects := t.redirects[id := row])
    ensures Keeps(t, t')
  {
    hide PagesOk, HomesOk, RedirectOk;
    Framed(t, t');
  }

  lemma PatchRedirectOk(t: Tables, id: Uuid, p: Redirects.Patch)
    requires TablesOk(t)
    ensures Keeps(t, Redirects.PatchRedirect(t, id, p).0)
  {
    hide PagesOk, HomesOk, RedirectsOk, Redirects.ValidateRedirect, RedirectOk;
    var after := Redirects.PatchRedirect(t, id, p).0;
    if Redirects.PatchRedirect(t, id, p).1.Ok? {
      var row := t.redirects[id];
      var kind := if p.kind.Some? then p.kind.value else Redirects.KindText(row.kind);
      ValidatedIsOk(kind, Redirects.PatchedFrom(row, p), Redirects.PatchedTo(row, p), row.website);
      RedirectChanged(t, after, id, after.redirects[id]);
    }
  }

  lemma DeleteRedirectOk(t: Tables, id: Uuid)
    requires TablesOk(t)
    ensures Keeps(t, Redirects.Delete(t, id).0)
  {
    hide PagesOk, HomesOk, RedirectOk;
    Framed(t, Redirects.Delete(t, id).0);
  }

  // ---- the bootstrap ----

  /** Every live website but one has its homepage. */
  ghost predicate OthersHome(t: Tables, w: Uuid) {
    forall v :: v in t.websites && t.websites[v].live && v != w ==> HasHome(t, v)
  }

  /** The website has no page yet. */
  ghost predicate Pageless(t: Tables, w: Uuid) {
    forall id :: id in t.pages ==> t.pages[id].website != Some(w)
  }

  lemma SeededOk(t: Tables, input: Websites.NewWebsite, seedId: Uuid, w: Uuid)
    requires PagesOk(t) && Websites.WithSeed(t, input, seedId).Ok? && Absolute(input.homepageUrl)
    ensures var (t', generic) := Websites.WithSeed(t, input, seedId).value;
      && PagesOk(t') && t' == t.(pages := t'.pages) && (forall id :: id in t'.pages ==> id in t.pages || id == seedId)
      && (forall id :: id in t'.pages && t'.pages[id].website.Some? ==> id in t.pages && t.pages[id] == t'.pages[id])
      && generic in t'.pages && t'.pages[generic].live && t'.pages[generic].key == Websites.HOMEPAGE
      && (OthersHome(t, w) ==> OthersHome(t', w))
  {
    var (t', generic) := Websites.WithSeed(t, input, seedId).value;
    var resolved := ResolveGeneric(t, Websites.HOMEPAGE);
    assert resolved.Some? ==> resolved.value in KeyIds(t, Websites.HOMEPAGE, None);
    if resolved.None? {
      hide PagesOk;
      var row := Websites.SeedPage(input);
      PageAdded(t, t', seedId, row);
      forall v | OthersHome(t, w) && v in t'.websites && t'.websites[v].live && v != w ensures HasHome(t', v) {
        HomeStays(t, t', seedId, row, v);
      }
    }
  }

  /** A generic homepage, and a website that waits for its copy. */
  ghost predicate Ready(t: Tables, generic: Uuid, w: Uuid, url: string, homeId: Uuid) {
    && PagesOk(t) && generic in t.pages && t.pages[generic].key == Websites.HOMEPAGE && Absolute(url)
    && w in t.websites && t.websites[w].homepageUrl == url && homeId !in t.pages && Pageless(t, w)
  }

  lemma PlantedOk(t: Tables, generic: Uuid, w: Uuid, url: string, homeId: Uuid)
    requires Ready(t, generic, w, url, homeId)
    ensures var t' := Websites.WithHome(t, generic, w, url, homeId);
      && PagesOk(t') && (OthersHome(t, w) ==> HomesOk(t')) && IsHome(t', w, homeId) && t' == t.(pages := t'.pages)
      && homeId in t'.pages && KeySlot(t', Websites.HOMEPAGE, Some(w)) == Some(homeId)
  {
    var t' := Websites.WithHome(t, generic, w, url, homeId);
    var row := Websites.HomePage(t.pages[generic], generic, w, url);
    assert !Conflicts(t, homeId, row);
    assert KeyIds(t', Websites.HOMEPAGE, Some(w)) == {homeId};
    PageAdded(t, t', homeId, row);
    assert IsHome(t', w, homeId);
    forall v | OthersHome(t, w) && v in t'.websites && t'.websites[v].live ensures HasHome(t', v) {
      if v == w {
        assert IsHome(t', w, homeId);
      } else {
        HomeStays(t, t', homeId, row, v);
      }
    }
  }

  lemma InsertedOk(t: Tables, input: Websites.NewWebsite, base: Uuid)
    requires PagesOk(t) && Fresh(t, base)
    ensures var inserted := t.(websites := t.websites[base := Websites.WebsiteRow(input)]);
      PagesOk(inserted) && (HomesOk(t) ==> OthersHome(inserted, base)) && Pageless(inserted, base)
  {
    var inserted := t.(websites := t.websites[base := Websites.WebsiteRow(input)]);
    forall v | HomesOk(t) && v in inserted.websites && inserted.websites[v].live && v != base ensures HasHome(inserted, v) {
      var h :| IsHome(t, v, h);
      assert IsHome(inserted, v, h);
    }
  }

  lemma NoneOf(t: Tables, t': Tables, w: Uuid)
    requires Pageless(t, w)
    requires forall id :: id in t'.pages && t'.pages[id].website.Some? ==> id in t.pages && t.pages[id] == t'.pages[id]
    ensures Pageless(t', w)
  {
  }

  lemma HomedOk(t: Tables, input: Websites.NewWebsite, base: Uuid)
    requires PagesOk(t) && Fresh(t, base) && Absolute(input.homepageUrl) && Websites.Homed(t, input, base).Ok?
    ensures var home := Websites.Homed(t, input, base).value;
      && PagesOk(home) && (HomesOk(t) ==> HomesOk(home)) && home.redirects == t.redirects
      && home.websites == t.websites[base := Websites.WebsiteRow(input)]
      && KeySlot(home, Websites.HOMEPAGE, Some(base)) == Some(base + 2) && IsHome(home, base, base + 2)
  {
    hide PagesOk, HomesOk, IsHome, OthersHome, Ready, Websites.WithSeed, Websites.WithHome, Fresh, KeySlot;
    var inserted := t.(websites := t.websites[base := Websites.WebsiteRow(input)]);
    var pair := Websites.WithSeed(inserted, input, base + 1).value;
    SeedIsReady(t, input, base);
    PlantedOk(pair.0, pair.1, base, input.homepageUrl, base + 2);
  }

  lemma SeedIsReady(t: Tables, input: Websites.NewWebsite, base: Uuid)
    requires PagesOk(t) && Fresh(t, base) && Absolute(input.homepageUrl)
    requires Websites.WithSeed(t.(websites := t.websites[base := Websites.WebsiteRow(input)]), input, base + 1).Ok?
    ensures var inserted := t.(websites := t.websites[base := Websites.WebsiteRow(input)]);
      var (seeded, generic) := Websites.WithSeed(inserted, input, base + 1).value;
      && Ready(seeded, generic, base, input.homepageUrl, base + 2) && (HomesOk(t) ==> OthersHome(seeded, base))
      && seeded == inserted.(pages := seeded.pages)
  {
    assert base + 2 !in t.pages && base + 1 != base + 2;
    InsertedOk(t, input, base);
    hide PagesOk, HomesOk, OthersHome, Pageless, Websites.WithSeed, Fresh;
    var inserted := t.(websites := t.websites[base := Websites.WebsiteRow(input)]);
    SeededOk(inserted, input, base + 1, base);
    NoneOf(inserted, Websites.WithSeed(inserted, input, base + 1).value.0, base);
  }

  lemma CreateWebsiteOk(t: Tables, input: Websites.NewWebsite, base: Uuid)
    requires TablesOk(t) && Fresh(t, base)
    ensures Keeps(t, Websites.CreateWebsite(t, input, base).0)
  {
    if Websites.CreateWebsite(t, input, base).1.Ok? {
      HomedOk(t, input, base);
      hide PagesOk, HomesOk, RedirectsOk, Websites.Homed, Fresh;
      Framed(t, Websites.Homed(t, input, base).value);
      Framed(Websites.Homed(t, input, base).value, Websites.CreateWebsite(t, input, base).0);
    }
  }

  /** A committed bootstrap: the website's homepage is its own, and its Home menu under the root is bound to it. */
  lemma BootstrapIsWhole(t: Tables, input: Websites.NewWebsite, base: Uuid)
    requires PagesOk(t) && Fresh(t, base) && Websites.CreateWebsite(t, input, base).1.Ok?
    ensures var after := Websites.CreateWebsite(t, input, base).0;
      var home := base + 2;
      && Websites.CreateWebsite(t, input, base).1 == Ok(base)
      && ResolveSpecific(after, Websites.HOMEPAGE, base) == Specific(home)
      && LivePage(after, home) && after.pages[home].content.url == input.homepageUrl
      && after.menus == t.menus[base + 3 := Websites.MenuRow(base, None, "Main", None)]
           [base + 4 := Websites.MenuRow(base, Some(base + 3), "Home", Some(home))]
  {
    HomedOk(t, input, base);
    HomedKeepsMenus(t, input, base);
    var home := Websites.Homed(t, input, base).value;
    hide PagesOk, HomesOk, Fresh, Websites.Homed, KeySlot;
    var after := Websites.CreateWebsite(t, input, base).0;
    assert after == Websites.WithMenus(home, base, base + 3, base + 4, base + 2);
    SameSlot(home, after, Websites.HOMEPAGE, Some(base));
  }

  lemma HomedKeepsMenus(t: Tables, input: Websites.NewWebsite, base: Uuid)
    requires Websites.Homed(t, input, base).Ok?
    ensures Websites.Homed(t, input, base).value.menus == t.menus
  {
  }

  /** One more page is seen only through its own slots. */
  lemma AddedIsElsewhere(t: Tables, t': Tables, id: Uuid, row: Page, k: string, site: Option<Uuid>)
    requires id !in t.pages && t'.pages in {t.pages, t.pages[id := row]} && (row.key != k || row.website != site)
    ensures KeyIds(t', k, site) == KeyIds(t, k, site) && forall i :: i in t.pages ==> i in t'.pages && t'.pages[i] == t.pages[i]
  {
  }

  /** The pages a bootstrap adds: its own homepage, and the generic seed when there was none. */
  lemma BootstrapPages(t: Tables, input: Websites.NewWebsite, base: Uuid, k: string, site: Option<Uuid>)
    requires Fresh(t, base) && Websites.Homed(t, input, base).Ok? && site != Some(base)
    requires site.Some? || k != Websites.HOMEPAGE || KeySlot(t, Websites.HOMEPAGE, None).Some?
    ensures var home := Websites.Homed(t, input, base).value;
      && KeyIds(home, k, site) == KeyIds(t, k, site)
      && home.blocks == t.blocks && (forall id :: id in t.pages ==> id in home.pages && home.pages[id] == t.pages[id])
  {
    assert base + 1 !in t.pages && base + 2 !in t.pages;
    var inserted := t.(websites := t.websites[base := Websites.WebsiteRow(input)]);
    SameSlot(t, inserted, Websites.HOMEPAGE, None);
    hide Fresh, KeySlot, Conflicts;
    var pair := Websites.WithSeed(inserted, input, base + 1).value;
    var seeded, generic := pair.0, pair.1;
    SeedOrNot(inserted, input, base + 1);
    if seeded.pages != t.pages {
      AddedIsElsewhere(t, seeded, base + 1, Websites.SeedPage(input), k, site);
    }
    assert KeyIds(seeded, k, site) == KeyIds(t, k, site);
    if generic in seeded.pages {
      AddedIsElsewhere(seeded, Websites.Homed(t, input, base).value, base + 2,
                       Websites.HomePage(seeded.pages[generic], generic, base, input.homepageUrl), k, site);
    }
  }

  lemma SeedOrNot(t: Tables, input: Websites.NewWebsite, seedId: Uuid)
    requires Websites.WithSeed(t, input, seedId).Ok?
    ensures var t' := Websites.WithSeed(t, input, seedId).value.0;
      && t' == t.(pages := t'.pages) && t'.pages in {t.pages, t.pages[seedId := Websites.SeedPage(input)]}
      && (t'.pages != t.pages ==> KeySlot(t, Websites.HOMEPAGE, None).None?)
  {
  }

  /** Equal slots and untouched rows show the same page. */
  lemma SameEffective(t: Tables, after: Tables, k: string, v: Uuid)
    requires KeySlot(after, k, Some(v)) == KeySlot(t, k, Some(v))
    requires KeySlot(t, k, Some(v)).Some? || KeySlot(after, k, None) == KeySlot(t, k, None)
    requires after.blocks == t.blocks && forall id :: id in t.pages ==> id in after.pages && after.pages[id] == t.pages[id]
    ensures Effective(after, k, v) == Effective(t, k, v)
  {
    hide KeySlot;
    InTable(t, k, Some(v));
    InTable(t, k, None);
  }

  lemma InTable(t: Tables, k: string, site: Option<Uuid>)
    ensures KeySlot(t, k, site).Some? ==> KeySlot(t, k, site).value in t.pages
  {
    var slot := KeySlot(t, k, site);
    assert slot.Some? ==> slot.value in KeyIds(t, k, site);
  }

  /** A bootstrap changes no other live website's page for any key. */
  lemma BootstrapIsLocal(t: Tables, input: Websites.NewWebsite, base: Uuid, k: string, v: Uuid)
    requires SiteOk(t) && Fresh(t, base) && v in t.websites && t.websites[v].live
    ensures Effective(Websites.CreateWebsite(t, input, base).0, k, v) == Effective(t, k, v)
  {
    if Websites.CreateWebsite(t, input, base).1.Ok? {
      OwnHome(t, v);
      assert v != base;
      CreateShape(t, input, base);
      hide SiteOk, Fresh, Websites.Homed, Websites.CreateWebsite, Effective;
      var home, after := Websites.Homed(t, input, base).value, Websites.CreateWebsite(t, input, base).0;
      BootstrapSlots(t, home, input, base, k, v);
      SameSlot(home, after, k, Some(v));
      SameSlot(home, after, k, None);
      SameEffective(t, after, k, v);
    }
  }

  lemma CreateShape(t: Tables, input: Websites.NewWebsite, base: Uuid)
    requires Websites.CreateWebsite(t, input, base).1.Ok?
    ensures Websites.Homed(t, input, base).Ok?
    ensures var after := Websites.CreateWebsite(t, input, base).0;
      after == Websites.Homed(t, input, base).value.(menus := after.menus)
  {
    hide Websites.Homed;
  }

  lemma BootstrapSlots(t: Tables, home: Tables, input: Websites.NewWebsite, base: Uuid, k: string, v: Uuid)
    requires Fresh(t, base) && v != base && Websites.Homed(t, input, base) == Ok(home)
    requires KeySlot(t, Websites.HOMEPAGE, Some(v)).Some?
    ensures KeySlot(home, k, Some(v)) == KeySlot(t, k, Some(v))
    ensures k != Websites.HOMEPAGE ==> KeySlot(home, k, None) == KeySlot(t, k, None)
    ensures home.blocks == t.blocks && forall id :: id in t.pages ==> id in home.pages && home.pages[id] == t.pages[id]
  {
    hide Fresh, Websites.Homed;
    BootstrapPages(t, input, base, k, Some(v));
    if k != Websites.HOMEPAGE {
      BootstrapPages(t, input, base, k, None);
    }
  }

  lemma OwnHome(t: Tables, v: Uuid)
    requires SiteOk(t) && v in t.websites && t.websites[v].live
    ensures KeySlot(t, Websites.HOMEPAGE, Some(v)).Some?
  {
    assert HasHome(t, v);
    var h :| IsHome(t, v, h);
    assert h in KeyIds(t, Websites.HOMEPAGE, Some(v));
  }

  // ---- the bootstrap by url ----

  lemma AddedUrl(t: Tables, t': Tables, id: Uuid, row: Page, u: string, site: Option<Uuid>)
    requires id !in t.pages && t'.pages == t.pages[id := row] && row.live
    ensures UrlIds(t', u, site) == UrlIds(t, u, site) + if row.content.url == u && row.website == site then {id} else {}
  {
  }

  /** The seed takes the generic slot of its url, which it found free. */
  lemma SeedUrls(t: Tables, input: Websites.NewWebsite, seedId: Uuid, u: string, site: Option<Uuid>)
    requires seedId !in t.pages && Websites.WithSeed(t, input, seedId).Ok?
    ensures var takes := ResolveGeneric(t, Websites.HOMEPAGE).None? && u == input.homepageUrl && site.None?;
      && (takes ==> UrlIds(t, u, site) == {})
      && UrlIds(Websites.WithSeed(t, input, seedId).value.0, u, site) == if takes then {seedId} else UrlIds(t, u, site)
  {
    hide KeySlot;
    var t' := Websites.WithSeed(t, input, seedId).value.0;
    var row := Websites.SeedPage(input);
    if ResolveGeneric(t, Websites.HOMEPAGE).None? {
      AddedUrl(t, t', seedId, row, u, site);
      assert forall j :: j in UrlIds(t, input.homepageUrl, None) ==> Clash(t.pages[j], row);
    }
  }

  lemma HomeUrls(t: Tables, generic: Uuid, w: Uuid, url: string, homeId: Uuid, u: string, site: Option<Uuid>)
    requires homeId !in t.pages && site != Some(w)
    ensures UrlIds(Websites.WithHome(t, generic, w, url, homeId), u, site) == UrlIds(t, u, site)
  {
    var t' := Websites.WithHome(t, generic, w, url, homeId);
    if t' != t {
      AddedUrl(t, t', homeId, Websites.HomePage(t.pages[generic], generic, w, url), u, site);
    }
  }

  lemma HomedUrls(t: Tables, input: Websites.NewWebsite, base: Uuid, u: string, site: Option<Uuid>)
    requires Fresh(t, base) && Websites.Homed(t, input, base).Ok? && site != Some(base)
    ensures var takes := ResolveGeneric(t, Websites.HOMEPAGE).None? && u == input.homepageUrl && site.None?;
      && (takes ==> UrlIds(t, u, site) == {})
      && UrlIds(Websites.Homed(t, input, base).value, u, site) == if takes then {base + 1} else UrlIds(t, u, site)
  {
    var inserted := t.(websites := t.websites[base := Websites.WebsiteRow(input)]);
    assert base + 1 !in inserted.pages && base + 2 !in inserted.pages;
    SameSlot(t, inserted, Websites.HOMEPAGE, None);
    hide Fresh, KeySlot, Websites.WithSeed, Websites.WithHome;
    var pair := Websites.WithSeed(inserted, input, base + 1).value;
    SeedUrls(inserted, input, base + 1, u, site);
    SeedOrNot(inserted, input, base + 1);
    HomeUrls(pair.0, pair.1, base, input.homepageUrl, base + 2, u, site);
    assert UrlIds(inserted, u, site) == UrlIds(t, u, site);
  }

  /** The rows a bootstrap adds, beside those that were there. */
  lemma HomedRows(t: Tables, input: Websites.NewWebsite, base: Uuid)
    requires Fresh(t, base) && Websites.Homed(t, input, base).Ok?
    ensures var home := Websites.Homed(t, input, base).value;
      && home == t.(websites := home.websites, pages := home.pages)
      && (forall id :: id in t.pages ==> id in home.pages && home.pages[id] == t.pages[id])
      && (ResolveGeneric(t, Websites.HOMEPAGE).None? ==> base + 1 in home.pages && home.pages[base + 1] == Websites.SeedPage(input))
  {
    var inserted := t.(websites := t.websites[base := Websites.WebsiteRow(input)]);
    assert base + 1 !in inserted.pages && base + 2 !in inserted.pages;
    SameSlot(t, inserted, Websites.HOMEPAGE, None);
    hide Fresh, KeySlot, Websites.WithSeed, Websites.WithHome;
    var pair := Websites.WithSeed(inserted, input, base + 1).value;
    SeedRow(inserted, input, base + 1);
    HomeRow(pair.0, pair.1, base, input.homepageUrl, base + 2);
  }

  lemma SeedRow(t: Tables, input: Websites.NewWebsite, seedId: Uuid)
    requires Websites.WithSeed(t, input, seedId).Ok?
    ensures Websites.WithSeed(t, input, seedId).value.0
      == if ResolveGeneric(t, Websites.HOMEPAGE).None? then t.(pages := t.pages[seedId := Websites.SeedPage(input)]) else t
  {
  }

  lemma HomeRow(t: Tables, generic: Uuid, w: Uuid, url: string, homeId: Uuid)
    requires homeId !in t.pages
    ensures var t' := Websites.WithHome(t, generic, w, url, homeId);
      t' == t.(pages := t'.pages) && forall id :: id in t.pages ==> id in t'.pages && t'.pages[id] == t.pages[id]
  {
  }

  /** Whether the bootstrap's seed is what the url resolves to on the website from now on. */
  predicate SeedAnswers(t: Tables, input: Websites.NewWebsite, u: string, v: Uuid) {
    ResolveGeneric(t, Websites.HOMEPAGE).None? && u == input.homepageUrl && UrlSlot(t, u, Some(v)).None?
  }

  lemma BootstrapUrlSlots(t: Tables, input: Websites.NewWebsite, base: Uuid, u: string, v: Uuid)
    requires Fresh(t, base) && v != base && Websites.CreateWebsite(t, input, base).1.Ok?
    ensures var after := Websites.CreateWebsite(t, input, base).0;
      if SeedAnswers(t, input, u, v)
      then ResolvePageByUrl(t, u, v) == NoRow && ResolvePageByUrl(after, u, v) == Generic(base + 1)
      else ResolvePageByUrl(after, u, v) == ResolvePageByUrl(t, u, v)
  {
    CreateShape(t, input, base);
    HomedUrls(t, input, base, u, Some(v));
    HomedUrls(t, input, base, u, None);
    hide Fresh, KeySlot, Websites.Homed, Websites.CreateWebsite;
    var home, after := Websites.Homed(t, input, base).value, Websites.CreateWebsite(t, input, base).0;
    assert UrlIds(after, u, Some(v)) == UrlIds(home, u, Some(v)) && UrlIds(after, u, None) == UrlIds(home, u, None);
  }

  /**
   By url a bootstrap does reach other websites: the generic homepage it seeds takes the new
   website's url, and answers there on every website without a page of its own at that url. No other
   url of another website resolves differently, and since the seed is not published nobody is served
   anything different.
   */
  lemma BootstrapByUrl(t: Tables, input: Websites.NewWebsite, base: Uuid, u: string, v: Uuid, principal: Option<Uuid>, now: int)
    requires Fresh(t, base) && v != base && Websites.CreateWebsite(t, input, base).1.Ok?
    ensures var after := Websites.CreateWebsite(t, input, base).0;
      && EffectiveAt(after, u, v)
         == (if SeedAnswers(t, input, u, v) then Some(View(Websites.SeedPage(input).content, multiset{})) else EffectiveAt(t, u, v))
      && (SeedAnswers(t, input, u, v) ==> EffectiveAt(t, u, v).None?)
      && Pages.VisiblePage(after, v, u, principal, now) == Pages.VisiblePage(t, v, u, principal, now)
  {
    var after := Websites.CreateWebsite(t, input, base).0;
    BootstrapUrlSlots(t, input, base, u, v);
    BootstrapRows(t, input, base);
    hide Fresh, Websites.CreateWebsite, ResolvePageByUrl, SeedAnswers;
    if SeedAnswers(t, input, u, v) {
      SeedIsMissing(t, input, u, v);
      hide ResolveGeneric;
      assert Pages.VisiblePage(after, v, u, principal, now) == Ok(None);
    } else {
      OldRowsAlike(t, after, u, v, principal, now);
    }
  }

  /** The rows that were there are still there, and the seed is new. */
  lemma BootstrapRows(t: Tables, input: Websites.NewWebsite, base: Uuid)
    requires Fresh(t, base) && Websites.CreateWebsite(t, input, base).1.Ok?
    ensures var after := Websites.CreateWebsite(t, input, base).0;
      && OldRows(t, after)
      && (ResolveGeneric(t, Websites.HOMEPAGE).None? ==>
            base + 1 in after.pages && after.pages[base + 1] == Websites.SeedPage(input) && BlocksOf(after, base + 1) == multiset{})
  {
    CreateShape(t, input, base);
    HomedRows(t, input, base);
    assert base + 1 !in t.blocks;
    hide Fresh, Websites.Homed, Websites.CreateWebsite;
  }

  ghost predicate OldRows(t: Tables, after: Tables) {
    && after.blocks == t.blocks && after.members == t.members
    && forall id :: id in t.pages ==> id in after.pages && after.pages[id] == t.pages[id]
  }

  lemma OldRowsAlike(t: Tables, after: Tables, u: string, v: Uuid, principal: Option<Uuid>, now: int)
    requires OldRows(t, after) && ResolvePageByUrl(after, u, v) == ResolvePageByUrl(t, u, v)
    ensures EffectiveAt(after, u, v) == EffectiveAt(t, u, v)
    ensures Pages.VisiblePage(after, v, u, principal, now) == Pages.VisiblePage(t, v, u, principal, now)
  {
    ResolvedRow(t, u, v);
    hide ResolvePageByUrl;
  }

  lemma SeedIsMissing(t: Tables, input: Websites.NewWebsite, u: string, v: Uuid)
    ensures SeedAnswers(t, input, u, v) ==> ResolveGeneric(t, Websites.HOMEPAGE).None?
  {
  }

  lemma ResolvedRow(t: Tables, u: string, v: Uuid)
    ensures !ResolvePageByUrl(t, u, v).NoRow? ==> ResolvePageByUrl(t, u, v).id in t.pages
  {
  }
}
