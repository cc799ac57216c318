/**
 When a website is made, which refusal it gets otherwise, and every column of the rows it starts with.
 */
module BootstrapProofs {
  import opened Common
  import opened Schema
  import opened Specificity
  import opened Text
  import opened Websites
  import opened SiteRuns
  import PageProofs

  /** A live website holds the domain or the public principal. */
  predicate Held(t: Tables, input: NewWebsite) {
    exists w :: (
      && w in t.websites && t.websites[w].live
      && (t.websites[w].domain == input.domain || t.websites[w].publicUser == input.publicUser))
  }

  lemma SeedFits(t: Tables, input: NewWebsite, base: Uuid)
    requires Fresh(t, base)
    ensures Homed(t, input, base).Ok? <==> KeySlot(t, "homepage", None).Some? || UrlSlot(t, input.homepageUrl, None).None?
    ensures Homed(t, input, base).Err? ==> Homed(t, input, base) == Err(Conflict)
  {
    var inserted := t.(websites := t.websites[base := WebsiteRow(input)]);
    assert base + 1 !in t.pages;
    PageProofs.FreeSlots(inserted, base + 1, SeedPage(input));
    assert KeyIds(inserted, "homepage", None) == KeyIds(t, "homepage", None);
    assert UrlIds(inserted, input.homepageUrl, None) == UrlIds(t, input.homepageUrl, None);
    hide Conflicts, Fresh, WithHome;
  }

  /** A website is made exactly when it has a name, a site-absolute homepage, and its domain, its principal and its seed's url are free. */
  lemma BootstrapAcceptedIff(t: Tables, input: NewWebsite, base: Uuid)
    requires PagesOk(t) && Fresh(t, base)
    ensures var (after, r) := CreateWebsite(t, input, base);
      && (r.Err? ==> after == t)
      && if Trim(input.name) == "" || !Absolute(input.homepageUrl) then r == Err(InvalidInput)
         else if Held(t, input) then r == Err(Conflict)
         else if KeySlot(t, "homepage", None).None? && UrlSlot(t, input.homepageUrl, None).Some? then r == Err(Conflict)
         else r == Ok(base)
  {
    SeedFits(t, input, base);
    assert Held(t, input) <==> WebsiteTaken(t, input);
    if Absolute(input.homepageUrl) && Homed(t, input, base).Ok? {
      HomedOk(t, input, base);
    }
    hide PagesOk, Fresh, Homed, WebsiteTaken, Held, Trim, KeySlot, UrlSlot, WithMenus;
  }

  /** The generic homepage the website starts from: the one there was, or a seed made for it. */
  ghost predicate StartsFrom(t: Tables, input: NewWebsite, base: Uuid, generic: Uuid, source: Page) {
    if KeySlot(t, "homepage", None).Some?
    then KeySlot(t, "homepage", None) == Some(generic) && generic in t.pages && source == t.pages[generic]
    else
      && generic == base + 1 && source.live && source.key == "homepage" && source.website.None? && source.forkedFrom.None?
      && var c := source.content;
         && c.url == input.homepageUrl && c.title == Trim(input.name) + " \U{2014} Home" && c.seoName.None? && !c.published
         && c.datePublish.None? && c.indexed && c.visibility.Public? && c.roles == []
  }

  /**
   The rows a website starts with: its own, its homepage, a copy of the generic one at its own url, and
   nothing else among the pages but the seed.
   */
  lemma BootstrapStores(t: Tables, input: NewWebsite, base: Uuid) returns (generic: Uuid, source: Page)
    requires PagesOk(t) && Fresh(t, base) && CreateWebsite(t, input, base).1.Ok?
    ensures StartsFrom(t, input, base, generic, source)
    ensures var after := CreateWebsite(t, input, base).0;
      && after.websites == t.websites[base := Website(input.domain, input.publicUser, input.lang, input.homepageUrl, true)]
      && generic in after.pages && after.pages[generic] == source
      && base + 2 in after.pages
      && (forall id :: id in t.pages ==> id in after.pages && after.pages[id] == t.pages[id])
      && (forall id :: id in after.pages && id !in t.pages ==> id == generic || id == base + 2)
      && after.blocks == t.blocks && after.redirects == t.redirects && after.members == t.members && after.menuBlocks == t.menuBlocks
      && var home := after.pages[base + 2];
         && home.live && home.key == "homepage" && home.website == Some(base) && home.forkedFrom == Some(generic)
         && home.content.url == input.homepageUrl && home.content.seoName.None?
         && home.content == source.content.(url := home.content.url, seoName := home.content.seoName)
  {
    var seeded;
    generic, seeded := BootstrapShape(t, input, base);
    source := seeded[generic];
    hide PagesOk, Fresh, CreateWebsite, KeySlot, StartsFrom, HomePage, SeedPage;
    HomeColumns(source, generic, base, input.homepageUrl);
    OldAndNew(t.pages, seeded, base + 1, SeedPage(input), base + 2, HomePage(source, generic, base, input.homepageUrl), generic);
  }

  lemma HomeColumns(source: Page, generic: Uuid, w: Uuid, url: string)
    requires source.key == "homepage"
    ensures var home := HomePage(source, generic, w, url);
      && home.live && home.key == "homepage" && home.website == Some(w) && home.forkedFrom == Some(generic)
      && home.content.url == url && home.content.seoName.None?
      && home.content == source.content.(url := home.content.url, seoName := home.content.seoName)
  {
  }

  lemma OldAndNew(pages: map<Uuid, Page>, seeded: map<Uuid, Page>, seedId: Uuid, seed: Page, homeId: Uuid, home: Page, generic: Uuid)
    requires seedId !in pages && homeId !in seeded && generic in seeded
    requires seeded == pages || (seeded == pages[seedId := seed] && generic == seedId)
    ensures var after := seeded[homeId := home];
      && (forall id :: id in pages ==> id in after && after[id] == pages[id])
      && (forall id :: id in after && id !in pages ==> id == generic || id == homeId)
      && after[generic] == seeded[generic] && after[homeId] == home
  {
  }

  /** The pages with a generic homepage, and the website's homepage planted beside it. */
  lemma BootstrapShape(t: Tables, input: NewWebsite, base: Uuid) returns (generic: Uuid, seeded: map<Uuid, Page>)
    requires PagesOk(t) && Fresh(t, base) && CreateWebsite(t, input, base).1.Ok?
    ensures base + 1 !in t.pages && base + 2 !in seeded && generic in seeded
    ensures StartsFrom(t, input, base, generic, seeded[generic]) && seeded[generic].key == "homepage"
    ensures seeded == t.pages || (seeded == t.pages[base + 1 := SeedPage(input)] && generic == base + 1)
    ensures var after := CreateWebsite(t, input, base).0;
      && after.pages == seeded[base + 2 := HomePage(seeded[generic], generic, base, input.homepageUrl)]
      && after.websites == t.websites[base := WebsiteRow(input)]
      && after.blocks == t.blocks && after.redirects == t.redirects && after.members == t.members && after.menuBlocks == t.menuBlocks
  {
    var inserted := t.(websites := t.websites[base := WebsiteRow(input)]);
    assert base + 1 !in t.pages && base + 2 !in t.pages;
    CreateShape(t, input, base);
    SeedIsReady(t, input, base);
    SeedStarts(t, inserted, input, base);
    SeedRow(inserted, input, base + 1);
    var pair := WithSeed(inserted, input, base + 1).value;
    generic, seeded := pair.1, pair.0.pages;
    SeedIds(inserted, input, base + 1);
    hide PagesOk, Fresh, CreateWebsite, WithSeed, WithHome, StartsFrom, SeedPage, ResolveGeneric;
    HomePlanted(pair.0, generic, base, input.homepageUrl, base + 2);
  }

  lemma SeedIds(t: Tables, input: NewWebsite, seedId: Uuid)
    requires WithSeed(t, input, seedId).Ok?
    ensures ResolveGeneric(t, HOMEPAGE).None? ==> WithSeed(t, input, seedId).value.1 == seedId
  {
    hide Conflicts, KeySlot;
  }

  lemma SeedStarts(t: Tables, inserted: Tables, input: NewWebsite, base: Uuid)
    requires inserted == t.(websites := inserted.websites) && WithSeed(inserted, input, base + 1).Ok?
    ensures var (seeded, generic) := WithSeed(inserted, input, base + 1).value;
      generic in seeded.pages && StartsFrom(t, input, base, generic, seeded.pages[generic])
  {
    SameSlot(t, inserted, "homepage", None);
    PageInTable(inserted);
    hide KeySlot, Conflicts;
  }

  lemma PageInTable(t: Tables)
    ensures KeySlot(t, "homepage", None).Some? ==> KeySlot(t, "homepage", None).value in t.pages
  {
  }

  lemma HomePlanted(t: Tables, generic: Uuid, w: Uuid, url: string, homeId: Uuid)
    requires Ready(t, generic, w, url, homeId)
    ensures generic in t.pages
    ensures WithHome(t, generic, w, url, homeId) == t.(pages := t.pages[homeId := HomePage(t.pages[generic], generic, w, url)])
    ensures t.pages[generic].key == "homepage"
  {
  }

  /** The menus it starts with: a root "Main", and below it "Home", bound to the homepage. */
  lemma BootstrapPlants(t: Tables, input: NewWebsite, base: Uuid)
    requires PagesOk(t) && Fresh(t, base) && CreateWebsite(t, input, base).1.Ok?
    ensures CreateWebsite(t, input, base).0.menus
      == t.menus[base + 3 := Menu(base, None, "Main", None, None, false, 10, Public, [], false, true)]
           [base + 4 := Menu(base, Some(base + 3), "Home", Some(base + 2), None, false, 10, Public, [], false, true)]
  {
    BootstrapIsWhole(t, input, base);
    hide CreateWebsite, PagesOk, Fresh;
  }
}
