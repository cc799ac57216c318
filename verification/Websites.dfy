/**
 The website bootstrap: one transaction that inserts the website, seeds the generic homepage if
 there is none, gives the website its own homepage at its own url, and plants the root menu.
 */
module Websites {
  import opened Common
  import opened Schema
  import opened Specificity
  import opened Text

  datatype WebsiteError = InvalidInput | Conflict | RowNotFound

  const HOMEPAGE := "homepage"

  /** The domain is the normalized host, empty when none was given; the principal is bound or freshly minted. */
  datatype NewWebsite = NewWebsite(name: string, domain: string, publicUser: Uuid, lang: string, homepageUrl: string)

  function WebsiteRow(input: NewWebsite): Website {
    Website(input.domain, input.publicUser, input.lang, input.homepageUrl, true)
  }

  /** The unique indexes over live websites. */
  predicate WebsiteTaken(t: Tables, input: NewWebsite) {
    exists w :: (
      && w in t.websites && t.websites[w].live
      && (t.websites[w].domain == input.domain || t.websites[w].publicUser == input.publicUser))
  }

  /** The generic homepage a first bootstrap seeds. */
  function SeedPage(input: NewWebsite): Page {
    Page(HOMEPAGE, None, Content(input.homepageUrl, Trim(input.name) + " \U{2014} Home", None, false, None, true, Public, []), None, true)
  }

  /** The website's own homepage: the generic's columns, but its own url and no SEO name. */
  function HomePage(p: Page, generic: Uuid, w: Uuid, url: string): Page {
    Page(p.key, Some(w), p.content.(url := url, seoName := None), Some(generic), true)
  }

  function MenuRow(w: Uuid, parent: Option<Uuid>, name: string, page: Option<Uuid>): Menu {
    Menu(w, parent, name, page, None, false, 10, Public, [], false, true)
  }

  /** The tables with a generic homepage, and its id. */
  function WithSeed(t: Tables, input: NewWebsite, seedId: Uuid): Result<(Tables, Uuid), WebsiteError> {
    var generic := ResolveGeneric(t, HOMEPAGE);
    if generic.Some? then Ok((t, generic.value))
    else if Conflicts(t, seedId, SeedPage(input)) then Err(Conflict)
    else Ok((t.(pages := t.pages[seedId := SeedPage(input)]), seedId))
  }

  /** The website's homepage, inserted unless its slot is taken. */
  function WithHome(t: Tables, generic: Uuid, w: Uuid, url: string, homeId: Uuid): Tables {
    if generic in t.pages && !Conflicts(t, homeId, HomePage(t.pages[generic], generic, w, url))
    then t.(pages := t.pages[homeId := HomePage(t.pages[generic], generic, w, url)]) else t
  }

  /** The website row, the seed and the website's homepage. */
  function Homed(t: Tables, input: NewWebsite, base: Uuid): Result<Tables, WebsiteError> {
    var inserted := t.(websites := t.websites[base := WebsiteRow(input)]);
    match WithSeed(inserted, input, base + 1)
    case Err(e) => Err(e)
    case Ok(seeded) => Ok(WithHome(seeded.0, seeded.1, base, input.homepageUrl, base + 2))
  }

  /** The bootstrap, run alone, drawing the five uuids from `base`. An error commits nothing. */
  function CreateWebsite(t: Tables, input: NewWebsite, base: Uuid): (Tables, Result<Uuid, WebsiteError>) {
    if Trim(input.name) == "" then (t, Err(InvalidInput))
    else if !Absolute(input.homepageUrl) then (t, Err(InvalidInput))
    else if WebsiteTaken(t, input) then (t, Err(Conflict))
    else
      match Homed(t, input, base)
      case Err(e) => (t, Err(e))
      case Ok(home) =>
        var own := ResolveSpecificEntity(home, HOMEPAGE, base);
        if own.None? then (t, Err(RowNotFound))
        else (WithMenus(home, base, base + 3, base + 4, own.value), Ok(base))
  }

  function WithMenus(t: Tables, w: Uuid, rootId: Uuid, homeMenu: Uuid, page: Uuid): Tables {
    t.(menus := t.menus[rootId := MenuRow(w, None, "Main", None)][homeMenu := MenuRow(w, Some(rootId), "Home", Some(page))])
  }

  lemma WithSeedKeepsFresh(t: Tables, input: NewWebsite, seedId: Uuid, next: Uuid)
    requires Fresh(t, next) && seedId < next && WithSeed(t, input, seedId).Ok?
    ensures Fresh(WithSeed(t, input, seedId).value.0, next)
  {
  }

  lemma WithHomeKeepsFresh(t: Tables, generic: Uuid, w: Uuid, url: string, homeId: Uuid, next: Uuid)
    requires Fresh(t, next) && homeId < next
    ensures Fresh(WithHome(t, generic, w, url, homeId), next)
  {
  }

  lemma WithMenusKeepsFresh(t: Tables, w: Uuid, rootId: Uuid, homeMenu: Uuid, page: Uuid, next: Uuid)
    requires Fresh(t, next) && rootId < next && homeMenu < next && page in t.pages
    ensures Fresh(WithMenus(t, w, rootId, homeMenu, page), next)
  {
  }

  lemma HomedKeepsFresh(t: Tables, input: NewWebsite, base: Uuid)
    requires Fresh(t, base) && Homed(t, input, base).Ok?
    ensures Fresh(Homed(t, input, base).value, base + 5)
  {
    var inserted, next := t.(websites := t.websites[base := WebsiteRow(input)]), base + 5;
    assert Fresh(inserted, next);
    hide Fresh, WithSeed, WithHome;
    var seeded := WithSeed(inserted, input, base + 1).value;
    WithSeedKeepsFresh(inserted, input, base + 1, next);
    WithHomeKeepsFresh(seeded.0, seeded.1, base, input.homepageUrl, base + 2, next);
  }

  lemma CreateKeepsFresh(t: Tables, input: NewWebsite, base: Uuid)
    requires Fresh(t, base)
    ensures Fresh(CreateWebsite(t, input, base).0, base + 5)
  {
    hide Fresh, Homed, WithMenus, WebsiteTaken;
    var next := base + 5;
    FreshUnderMore(t, base, next);
    if CreateWebsite(t, input, base).1.Ok? {
      var home := Homed(t, input, base).value;
      HomedKeepsFresh(t, input, base);
      var own := ResolveSpecificEntity(home, HOMEPAGE, base).value;
      assert own in KeyIds(home, HOMEPAGE, Some(base));
      WithMenusKeepsFresh(home, base, base + 3, base + 4, own, next);
    }
  }

  // ---- the transaction ----

  method Create(d: Database, input: NewWebsite) returns (r: Result<Uuid, WebsiteError>)
    requires d.Valid()
    modifies d
    ensures d.Valid() && (d.Snapshot(), r) == CreateWebsite(old(d.Snapshot()), input, old(d.nextId))
  {
    hide Fresh, WithSeed, WithHome, Conflicts, WebsiteTaken;
    FreshUnderMore(d.Snapshot(), d.nextId, d.nextId + 5);
    CreateKeepsFresh(d.Snapshot(), input, d.nextId);
    if Trim(input.name) == "" || !Absolute(input.homepageUrl) {
      return Err(InvalidInput);
    }
    var saved := d.Snapshot();
    if WebsiteTaken(saved, input) {
      return Err(Conflict);
    }
    var w := d.nextId;
    d.nextId := w + 5;
    d.websites := d.websites[w := WebsiteRow(input)];
    var seeded := SeedHomepage(d, input, w + 1);
    if seeded.Err? {
      d.Rollback(saved);
      return Err(seeded.error);
    }
    PlantHome(d, seeded.value, w, input.homepageUrl, w + 2);
    var own := ResolveSpecificEntity(d.Snapshot(), HOMEPAGE, w);
    if own.None? {
      d.Rollback(saved);
      return Err(RowNotFound);
    }
    d.menus := d.menus[w + 3 := MenuRow(w, None, "Main", None)];
    d.menus := d.menus[w + 4 := MenuRow(w, Some(w + 3), "Home", own)];
    return Ok(w);
  }

  method SeedHomepage(d: Database, input: NewWebsite, seedId: Uuid) returns (r: Result<Uuid, WebsiteError>)
    modifies d`pages
    ensures match WithSeed(old(d.Snapshot()), input, seedId)
      case Err(e) => r == Err(e) && d.Snapshot() == old(d.Snapshot())
      case Ok(seeded) => r == Ok(seeded.1) && d.Snapshot() == seeded.0
  {
    var generic := ResolveGeneric(d.Snapshot(), HOMEPAGE);
    if generic.Some? {
      return Ok(generic.value);
    }
    if Conflicts(d.Snapshot(), seedId, SeedPage(input)) {
      return Err(Conflict);
    }
    d.pages := d.pages[seedId := SeedPage(input)];
    return Ok(seedId);
  }

  method PlantHome(d: Database, generic: Uuid, w: Uuid, url: string, homeId: Uuid)
    modifies d`pages
    ensures d.Snapshot() == WithHome(old(d.Snapshot()), generic, w, url, homeId)
  {
    if generic in d.pages {
      var row := HomePage(d.pages[generic], generic, w, url);
      if !Conflicts(d.Snapshot(), homeId, row) {
        d.pages := d.pages[homeId := row];
      }
    }
  }
}
