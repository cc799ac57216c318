/**
 The page verbs: create, rename, delete of a specific, and the public page read.
 */
module Pages {
  import opened Common
  import opened Schema
  import opened Specificity
  import opened Text

  datatype PageError = InvalidInput | SpecificityConflict | NotFound | GenericRequiresFanoutVerb
    | ForeignKey | NotNull | CheckViolated | VisibilityRefused

  const KEY_MAX := 120

  // ---- validation ----

  function ValidateUrl(url: string): Result<(), PageError> {
    if !Absolute(url) then Err(InvalidInput)
    else if |url| > 1 && EndsWithSlash(url) then Err(InvalidInput)
    else if HasDoubleSlash(url[1..]) then Err(InvalidInput)
    else Ok(())
  }

  function ParseVisibility(v: string): Option<Visibility> {
    if v == "public" then Some(Public)
    else if v == "connected" then Some(Connected)
    else if v == "restricted" then Some(Restricted)
    else None
  }

  // ---- create ----

  datatype NewPage = NewPage(key: string, website: Option<Uuid>, url: string, title: string, seoName: Option<string>,
    visibility: string, roles: seq<string>, indexed: bool)

  function RowOf(input: NewPage, visibility: Visibility): Page {
    Page(Trim(input.key), input.website,
         Content(input.url, input.title, input.seoName, false, None, input.indexed, visibility, input.roles),
         None, true)
  }

  function CreatePage(t: Tables, input: NewPage, newId: Uuid): (Tables, Result<Uuid, PageError>) {
    if Trim(input.key) == "" || ByteLength(input.key) > KEY_MAX then (t, Err(InvalidInput))
    else if ValidateUrl(input.url).Err? then (t, Err(InvalidInput))
    else if ParseVisibility(input.visibility).None? then (t, Err(InvalidInput))
    else if SpacesOnly(input.title) then (t, Err(CheckViolated))
    else
      var row := RowOf(input, ParseVisibility(input.visibility).value);
      if Conflicts(t, newId, row) then (t, Err(SpecificityConflict))
      else if row.website.Some? && row.website.value !in t.websites then (t, Err(ForeignKey))
      else (t.(pages := t.pages[newId := row]), Ok(newId))
  }

  // ---- publish ----

  /** The first publish instant is kept: COALESCE(date_publish, now()). */
  function Published(p: Page, now: int): Page {
    p.(content := p.content.(published := true, datePublish := if p.content.datePublish.Some? then p.content.datePublish else Some(now)))
  }

  function PublishPage(t: Tables, id: Uuid, now: int): (Tables, Result<(), PageError>) {
    if !LivePage(t, id) then (t, Err(NotFound)) else (t.(pages := t.pages[id := Published(t.pages[id], now)]), Ok(()))
  }

  function Unpublished(p: Page): Page {
    p.(content := p.content.(published := false))
  }

  function UnpublishPage(t: Tables, id: Uuid): (Tables, Result<(), PageError>) {
    if !LivePage(t, id) then (t, Err(NotFound)) else (t.(pages := t.pages[id := Unpublished(t.pages[id])]), Ok(()))
  }

  // ---- rename ----

  function WithUrl(p: Page, url: string): Page {
    p.(content := p.content.(url := url))
  }

  /** UPDATE pages SET url = .. WHERE id = ..: another live row of the same site holds the url. */
  predicate UrlOccupied(t: Tables, id: Uuid, url: string)
    requires id in t.pages
  {
    exists j :: j in t.pages && t.pages[j].live && j != id && t.pages[j].website == t.pages[id].website && t.pages[j].content.url == url
  }

  function MenusFollow(menus: map<Uuid, Menu>, w: Uuid, oldUrl: string, newUrl: string): map<Uuid, Menu> {
    map m | m in menus ::
      if menus[m].website == w && menus[m].url == Some(oldUrl) && menus[m].live then menus[m].(url := Some(newUrl)) else menus[m]
  }

  function HomepageFollows(websites: map<Uuid, Website>, w: Uuid, oldUrl: string, newUrl: string): map<Uuid, Website> {
    if w in websites && websites[w].homepageUrl == oldUrl
    then websites[w := websites[w].(homepageUrl := newUrl)] else websites
  }

  predicate RedirectTaken(t: Tables, id: Uuid, w: Uuid, urlFrom: string) {
    || id in t.redirects
    || exists r :: r in t.redirects && t.redirects[r].live && t.redirects[r].website == w && t.redirects[r].urlFrom == urlFrom
  }

  function RenameKind(code: int): Option<RedirectType> {
    if code == 301 then Some(Moved301) else if code == 302 then Some(Found302) else None
  }

  /** The renamed row, its website's menus and its website's homepage. */
  function Moved(t: Tables, id: Uuid, url: string): Tables
    requires id in t.pages
  {
    var oldUrl := t.pages[id].content.url;
    var moved := t.(pages := t.pages[id := WithUrl(t.pages[id], url)]);
    match t.pages[id].website
    case None => moved
    case Some(w) => moved.(menus := MenusFollow(t.menus, w, oldUrl, url), websites := HomepageFollows(t.websites, w, oldUrl, url))
  }

  /** The optional redirect row of a rename, from the old url to the new one. */
  function RenameRedirect(t: Tables, page: Page, url: string, code: int, redirectId: Uuid): (Tables, Result<(), PageError>) {
    if RenameKind(code).None? then (t, Err(InvalidInput))
    else if page.website.None? then (t, Err(NotNull))
    else if RedirectTaken(t, redirectId, page.website.value, page.content.url) then (t, Ok(()))
    else if page.website.value !in t.websites then (t, Err(ForeignKey))
    else
      var row := Redirect(page.website.value, page.content.url, RenameKind(code).value, Some(url), true);
      (t.(redirects := t.redirects[redirectId := row]), Ok(()))
  }

  function RenamePage(t: Tables, id: Uuid, url: string, redirect: Option<int>, redirectId: Uuid): (Tables, Result<(), PageError>) {
    if ValidateUrl(url).Err? then (t, Err(InvalidInput))
    else if !LivePage(t, id) then (t, Err(NotFound))
    else if UrlOccupied(t, id, url) then (t, Err(SpecificityConflict))
    else if redirect.None? then (Moved(t, id, url), Ok(()))
    else
      var done := RenameRedirect(Moved(t, id, url), t.pages[id], url, redirect.value, redirectId);
      if done.1.Err? then (t, done.1) else done
  }

  // ---- delete of a specific ----

  function MenusRebound(menus: map<Uuid, Menu>, from: Uuid, to: Option<Uuid>): map<Uuid, Menu> {
    map m | m in menus :: if menus[m].page == Some(from) && menus[m].live then menus[m].(page := to) else menus[m]
  }

  function DeleteSpecific(t: Tables, id: Uuid): (Tables, Result<(), PageError>) {
    if !LivePage(t, id) then (t, Err(NotFound))
    else if t.pages[id].website.None? then (t, Err(GenericRequiresFanoutVerb))
    else
      var dead := t.(pages := t.pages[id := t.pages[id].(live := false)]);
      (dead.(menus := MenusRebound(t.menus, id, ResolveGeneric(dead, t.pages[id].key))), Ok(()))
  }

  // ---- the public read ----

  predicate TierPasses(t: Tables, visibility: Visibility, required: seq<string>, w: Uuid, principal: Option<Uuid>) {
    match visibility
    case Public => true
    case Connected => principal.Some?
    case Restricted => principal.Some? && exists r :: r in required && Member(w, principal.value, r) in t.members
  }

  datatype PublicPage = PublicPage(id: Uuid, row: Page, blocks: multiset<Block>)

  function VisiblePage(t: Tables, w: Uuid, url: string, principal: Option<Uuid>, now: int): Result<Option<PublicPage>, PageError> {
    var r := ResolvePageByUrl(t, url, w);
    if r.NoRow? then Ok(None)
    else
      var row := t.pages[r.id];
      if !row.content.published then Ok(None)
      else if row.content.datePublish.Some? && row.content.datePublish.value > now then Ok(None)
      else if !TierPasses(t, row.content.visibility, row.content.roles, w, principal) then Err(VisibilityRefused)
      else Ok(Some(PublicPage(r.id, row, BlocksOf(t, r.id))))
  }

  // ---- the transactions ----

  method Create(d: Database, input: NewPage) returns (r: Result<Uuid, PageError>)
    requires d.Valid()
    modifies d
    ensures (d.Snapshot(), r) == CreatePage(old(d.Snapshot()), input, old(d.nextId))
    ensures d.Valid()
  {
    if Trim(input.key) == "" || ByteLength(input.key) > KEY_MAX {
      return Err(InvalidInput);
    }
    if ValidateUrl(input.url).Err? || ParseVisibility(input.visibility).None? {
      return Err(InvalidInput);
    }
    if SpacesOnly(input.title) {
      return Err(CheckViolated);
    }
    var t := d.Snapshot();
    var row := RowOf(input, ParseVisibility(input.visibility).value);
    var newId := d.NewId();
    if Conflicts(t, newId, row) {
      return Err(SpecificityConflict);
    }
    if row.website.Some? && row.website.value !in d.websites {
      return Err(ForeignKey);
    }
    d.pages := d.pages[newId := row];
    return Ok(newId);
  }

  method Publish(d: Database, id: Uuid, now: int) returns (r: Result<(), PageError>)
    requires d.Valid()
    modifies d`pages
    ensures (d.Snapshot(), r) == PublishPage(old(d.Snapshot()), id, now) && d.Valid()
  {
    if id !in d.pages || !d.pages[id].live {
      return Err(NotFound);
    }
    d.pages := d.pages[id := Published(d.pages[id], now)];
    return Ok(());
  }

  method Unpublish(d: Database, id: Uuid) returns (r: Result<(), PageError>)
    requires d.Valid()
    modifies d`pages
    ensures (d.Snapshot(), r) == UnpublishPage(old(d.Snapshot()), id) && d.Valid()
  {
    if id !in d.pages || !d.pages[id].live {
      return Err(NotFound);
    }
    d.pages := d.pages[id := Unpublished(d.pages[id])];
    return Ok(());
  }

  method MovePage(d: Database, id: Uuid, url: string)
    requires d.Valid() && id in d.pages
    modifies d`pages, d`menus, d`websites
    ensures d.Snapshot() == Moved(old(d.Snapshot()), id, url) && d.Valid()
  {
    var page := d.pages[id];
    d.pages := d.pages[id := WithUrl(page, url)];
    if page.website.Some? {
      d.menus := MenusFollow(d.menus, page.website.value, page.content.url, url);
      d.websites := HomepageFollows(d.websites, page.website.value, page.content.url, url);
    }
  }

  method Rename(d: Database, id: Uuid, url: string, redirect: Option<int>) returns (r: Result<(), PageError>)
    requires d.Valid()
    modifies d
    ensures (d.Snapshot(), r) == RenamePage(old(d.Snapshot()), id, url, redirect, old(d.nextId))
    ensures d.Valid()
  {
    if ValidateUrl(url).Err? {
      return Err(InvalidInput);
    }
    var saved := d.Snapshot();
    if !LivePage(saved, id) {
      return Err(NotFound);
    }
    if UrlOccupied(saved, id, url) {
      return Err(SpecificityConflict);
    }
    var page := d.pages[id];
    MovePage(d, id, url);
    if redirect.None? {
      return Ok(());
    }
    r := RecordRename(d, page, url, redirect.value);
    if r.Err? {
      FreshUnderMore(saved, old(d.nextId), d.nextId);
      d.Rollback(saved);
    }
  }

  method RecordRename(d: Database, page: Page, url: string, code: int) returns (r: Result<(), PageError>)
    requires d.Valid()
    modifies d`redirects, d`nextId
    ensures d.Valid() && old(d.nextId) <= d.nextId
    ensures (d.Snapshot(), r) == RenameRedirect(old(d.Snapshot()), page, url, code, old(d.nextId))
  {
    var kind := RenameKind(code);
    if kind.None? {
      return Err(InvalidInput);
    }
    if page.website.None? {
      return Err(NotNull);
    }
    var t := d.Snapshot();
    var id := d.NewId();
    if !RedirectTaken(t, id, page.website.value, page.content.url) {
      if page.website.value !in d.websites {
        return Err(ForeignKey);
      }
      d.redirects := d.redirects[id := Redirect(page.website.value, page.content.url, kind.value, Some(url), true)];
    }
    return Ok(());
  }

  /** After the first re-pointing no live menu is left for the second to unbind. */
  lemma ReboundOnce(menus: map<Uuid, Menu>, id: Uuid, to: Option<Uuid>)
    requires to != Some(id)
    ensures MenusRebound(MenusRebound(menus, id, to), id, None) == MenusRebound(menus, id, to)
  {
  }

  method Delete(d: Database, id: Uuid) returns (r: Result<(), PageError>)
    requires d.Valid()
    modifies d`pages, d`menus
    ensures (d.Snapshot(), r) == DeleteSpecific(old(d.Snapshot()), id)
    ensures d.Valid()
  {
    if !LivePage(d.Snapshot(), id) {
      return Err(NotFound);
    }
    var page := d.pages[id];
    if page.website.None? {
      return Err(GenericRequiresFanoutVerb);
    }
    d.pages := d.pages[id := page.(live := false)];
    var generic := ResolveGeneric(d.Snapshot(), page.key);
    assert generic != Some(id);
    if generic.Some? {
      ReboundOnce(d.menus, id, generic);
      d.menus := MenusRebound(d.menus, id, generic);
    }
    d.menus := MenusRebound(d.menus, id, None);
    return Ok(());
  }
}
