/**
 What the page verbs do to the resolver: who answers at which key and url afterwards, and that
 nobody else's answer changes.
 */
module PageProofs {
  import opened Common
  import opened Schema
  import opened Specificity
  import opened Pages
  import opened Text

  // ---- create ----

  /** A page is accepted exactly when its input is well formed, its site exists, and both its slots are free. */
  lemma CreateAcceptedIff(t: Tables, input: NewPage, newId: Uuid)
    requires newId !in t.pages
    ensures CreatePage(t, input, newId).1.Ok? <==>
      && Trim(input.key) != "" && ByteLength(input.key) <= 120 && ValidateUrl(input.url).Ok?
      && !SpacesOnly(input.title) && input.visibility in {"public", "connected", "restricted"}
      && (input.website.Some? ==> input.website.value in t.websites)
      && KeySlot(t, Trim(input.key), input.website).None? && UrlSlot(t, input.url, input.website).None?
  {
    hide ValidateUrl, Trim, ByteLength, SpacesOnly;
    if ParseVisibility(input.visibility).Some? {
      FreeSlots(t, newId, RowOf(input, ParseVisibility(input.visibility).value));
    }
  }

  /** Which refusal a create gives, in the order the checks are made; and a refusal writes nothing. */
  lemma CreateRefusals(t: Tables, input: NewPage, newId: Uuid)
    requires newId !in t.pages
    ensures var (after, r) := CreatePage(t, input, newId);
      var shaped := Trim(input.key) != "" && ByteLength(input.key) <= 120 && ValidateUrl(input.url).Ok?
        && input.visibility in {"public", "connected", "restricted"};
      var free := KeySlot(t, Trim(input.key), input.website).None? && UrlSlot(t, input.url, input.website).None?;
      && (r.Err? ==> after == t)
      && (!shaped ==> r == Err(InvalidInput))
      && (shaped && SpacesOnly(input.title) ==> r == Err(CheckViolated))
      && (shaped && !SpacesOnly(input.title) && !free ==> r == Err(SpecificityConflict))
      && (shaped && !SpacesOnly(input.title) && free && r.Err? ==>
            r == Err(ForeignKey) && input.website.Some? && input.website.value !in t.websites)
  {
    hide ValidateUrl, Trim, ByteLength, SpacesOnly;
    if ParseVisibility(input.visibility).Some? {
      FreeSlots(t, newId, RowOf(input, ParseVisibility(input.visibility).value));
    }
  }

  /** What is stored: the input's columns, unpublished and undated, and no other row of any table. */
  lemma CreateStores(t: Tables, input: NewPage, newId: Uuid)
    requires CreatePage(t, input, newId).1.Ok?
    ensures var after := CreatePage(t, input, newId).0;
      && CreatePage(t, input, newId).1 == Ok(newId) && newId in after.pages && after == t.(pages := t.pages[newId := after.pages[newId]])
      && var row := after.pages[newId];
         && row.live && row.key == Trim(input.key) && row.website == input.website && row.forkedFrom.None?
         && row.content.url == input.url && row.content.title == input.title && row.content.seoName == input.seoName
         && row.content.indexed == input.indexed && row.content.roles == input.roles
         && !row.content.published && row.content.datePublish.None?
         && (row.content.visibility.Public? <==> input.visibility == "public")
         && (row.content.visibility.Connected? <==> input.visibility == "connected")
         && (row.content.visibility.Restricted? <==> input.visibility == "restricted")
  {
    hide ValidateUrl, Trim, ByteLength, SpacesOnly, Conflicts;
  }

  /** The unique indexes refuse a row exactly when one of its two slots is taken. */
  lemma FreeSlots(t: Tables, id: Uuid, row: Page)
    requires id !in t.pages
    ensures !Conflicts(t, id, row) <==> KeySlot(t, row.key, row.website).None? && UrlSlot(t, row.content.url, row.website).None?
  {
    var byKey, byUrl := KeyIds(t, row.key, row.website), UrlIds(t, row.content.url, row.website);
    if Conflicts(t, id, row) {
      var j :| j in t.pages && t.pages[j].live && Clash(t.pages[j], row);
      assert j in byKey || j in byUrl;
    } else {
      assert forall j :: j in byKey ==> Clash(t.pages[j], row);
      assert forall j :: j in byUrl ==> Clash(t.pages[j], row);
    }
  }

  /** A created page holds its two slots, no other slot moves, and nobody is served it yet. */
  lemma CreateResolves(t: Tables, input: NewPage, newId: Uuid, k: string, u: string, site: Option<Uuid>)
    requires CreatePage(t, input, newId).1.Ok?
    ensures var after := CreatePage(t, input, newId).0;
      && KeySlot(after, k, site) == (if k == Trim(input.key) && site == input.website then Some(newId) else KeySlot(t, k, site))
      && UrlSlot(after, u, site) == (if u == input.url && site == input.website then Some(newId) else UrlSlot(t, u, site))
  {
    hide ValidateUrl, Trim, ByteLength, SpacesOnly;
    var after := CreatePage(t, input, newId).0;
    var row := after.pages[newId];
    assert !Conflicts(t, newId, row) && after.pages == t.pages[newId := row];
    AddedSlots(t, after, newId, row, k, u, site);
  }

  lemma AddedSlots(t: Tables, after: Tables, id: Uuid, row: Page, k: string, u: string, site: Option<Uuid>)
    requires !Conflicts(t, id, row) && after.pages == t.pages[id := row] && row.live
    ensures KeySlot(after, k, site) == if k == row.key && site == row.website then Some(id) else KeySlot(t, k, site)
    ensures UrlSlot(after, u, site) == if u == row.content.url && site == row.website then Some(id) else UrlSlot(t, u, site)
  {
    FreeSlots(t, id, row);
    assert KeyIds(after, k, site) == if k == row.key && site == row.website then {id} else KeyIds(t, k, site);
    assert UrlIds(after, u, site) == if u == row.content.url && site == row.website then {id} else UrlIds(t, u, site);
  }

  /**
   A created page, generic ones included, is served to nobody: where it is what the url resolves to
   nothing is served, and everything else is served as before.
   */
  lemma CreatedIsHidden(t: Tables, input: NewPage, newId: Uuid, w: Uuid, u: string, principal: Option<Uuid>, now: int)
    requires CreatePage(t, input, newId).1.Ok?
    ensures var covers := u == input.url && (input.website == Some(w) || (input.website.None? && UrlSlot(t, u, Some(w)).None?));
      VisiblePage(CreatePage(t, input, newId).0, w, u, principal, now)
      == if covers then Ok(None) else VisiblePage(t, w, u, principal, now)
  {
    hide CreatePage, VisiblePage, UrlSlot;
    var after := CreatePage(t, input, newId).0;
    CreateResolves(t, input, newId, "", u, Some(w));
    CreateResolves(t, input, newId, "", u, None);
    CreatedRow(t, input, newId);
    SlotInUse(t, u, Some(w));
    SlotInUse(t, u, None);
    var own := UrlSlot(t, u, Some(w));
    if u == input.url && (input.website == Some(w) || (input.website.None? && own.None?)) {
      NotYetServed(after, newId, w, u, principal, now);
    } else {
      ServedAlike(t, after, w, u, principal, now);
    }
  }

  lemma CreatedRow(t: Tables, input: NewPage, newId: Uuid)
    requires CreatePage(t, input, newId).1.Ok?
    ensures var after := CreatePage(t, input, newId).0;
      && newId !in t.pages && newId in after.pages && !after.pages[newId].content.published
      && after == t.(pages := t.pages[newId := after.pages[newId]])
  {
    hide ValidateUrl, Trim, ByteLength, SpacesOnly;
  }

  lemma SlotInUse(t: Tables, u: string, site: Option<Uuid>)
    ensures UrlSlot(t, u, site).Some? ==> UrlSlot(t, u, site).value in t.pages
  {
  }

  lemma NotYetServed(t: Tables, id: Uuid, w: Uuid, u: string, principal: Option<Uuid>, now: int)
    requires ResolvePageByUrl(t, u, w) in {Specific(id), Generic(id)} && id in t.pages && !t.pages[id].content.published
    ensures VisiblePage(t, w, u, principal, now) == Ok(None)
  {
    hide ResolvePageByUrl;
  }

  lemma ServedAlike(t: Tables, after: Tables, w: Uuid, u: string, principal: Option<Uuid>, now: int)
    requires ResolvePageByUrl(after, u, w) == ResolvePageByUrl(t, u, w) && after == t.(pages := after.pages)
    requires var r := ResolvePageByUrl(t, u, w); !r.NoRow? ==> r.id in t.pages && r.id in after.pages && after.pages[r.id] == t.pages[r.id]
    ensures VisiblePage(after, w, u, principal, now) == VisiblePage(t, w, u, principal, now)
  {
    hide ResolvePageByUrl;
  }

  // ---- publish ----

  /** The two versions of the tables differ in one live page, and there in no column a slot looks at. */
  ghost predicate SlotsAlike(t: Tables, after: Tables, id: Uuid) {
    && LivePage(t, id) && id in after.pages && after == t.(pages := t.pages[id := after.pages[id]])
    && var p, q := t.pages[id], after.pages[id];
       q.live && q.key == p.key && q.website == p.website && q.content.url == p.content.url
  }

  lemma SameSlots(t: Tables, after: Tables, id: Uuid, k: string, u: string, site: Option<Uuid>)
    requires SlotsAlike(t, after, id)
    ensures KeySlot(after, k, site) == KeySlot(t, k, site) && UrlSlot(after, u, site) == UrlSlot(t, u, site)
  {
    assert KeyIds(after, k, site) == KeyIds(t, k, site);
    assert UrlIds(after, u, site) == UrlIds(t, u, site);
  }

  /** What a url resolves to is the same, and the other pages are served as before. */
  lemma ElsewhereAlike(t: Tables, after: Tables, id: Uuid, w: Uuid, u: string, principal: Option<Uuid>, now: int)
    requires SlotsAlike(t, after, id)
    ensures ResolvePageByUrl(after, u, w) == ResolvePageByUrl(t, u, w)
    ensures ResolvePageByUrl(t, u, w) !in {Specific(id), Generic(id)} ==>
      VisiblePage(after, w, u, principal, now) == VisiblePage(t, w, u, principal, now)
  {
    SameSlots(t, after, id, "", u, Some(w));
    SameSlots(t, after, id, "", u, None);
    SlotInUse(t, u, Some(w));
    SlotInUse(t, u, None);
    hide UrlSlot, VisiblePage;
    if ResolvePageByUrl(t, u, w) !in {Specific(id), Generic(id)} {
      ServedAlike(t, after, w, u, principal, now);
    }
  }

  /**
   Publishing opens the page, from its first publish instant on, to those its tier lets pass, wherever
   it is what a url resolves to; nothing else is served differently.
   */
  lemma PublishOpens(t: Tables, id: Uuid, at: int, w: Uuid, u: string, principal: Option<Uuid>, now: int)
    requires LivePage(t, id)
    ensures var (after, row) := (PublishPage(t, id, at).0, t.pages[id]);
      VisiblePage(after, w, u, principal, now)
      == if ResolvePageByUrl(t, u, w) !in {Specific(id), Generic(id)} then VisiblePage(t, w, u, principal, now)
         else if (if row.content.datePublish.Some? then row.content.datePublish.value else at) > now then Ok(None)
         else if !TierPasses(t, row.content.visibility, row.content.roles, w, principal) then Err(VisibilityRefused)
         else Ok(Some(PublicPage(id, Published(row, at), BlocksOf(t, id))))
  {
    ElsewhereAlike(t, PublishPage(t, id, at).0, id, w, u, principal, now);
    hide ResolvePageByUrl;
  }

  /** Unpublishing closes the page everywhere, and nothing else is served differently. */
  lemma UnpublishCloses(t: Tables, id: Uuid, w: Uuid, u: string, principal: Option<Uuid>, now: int)
    requires LivePage(t, id)
    ensures VisiblePage(UnpublishPage(t, id).0, w, u, principal, now)
      == if ResolvePageByUrl(t, u, w) in {Specific(id), Generic(id)} then Ok(None) else VisiblePage(t, w, u, principal, now)
  {
    var after := UnpublishPage(t, id).0;
    ElsewhereAlike(t, after, id, w, u, principal, now);
    hide ResolvePageByUrl, VisiblePage;
    if ResolvePageByUrl(t, u, w) in {Specific(id), Generic(id)} {
      NotYetServed(after, id, w, u, principal, now);
    }
  }

  /** Both verbs are accepted exactly for a live page, change its flag and at most its first publish instant, and else nothing. */
  lemma PublishTouches(t: Tables, id: Uuid, at: int)
    ensures var (after, r) := PublishPage(t, id, at);
      if id in t.pages && t.pages[id].live then
        && r == Ok(()) && id in after.pages && after == t.(pages := t.pages[id := after.pages[id]])
        && var first := t.pages[id].content.datePublish;
           after.pages[id] == t.pages[id].(content := t.pages[id].content.(published := true,
             datePublish := if first.Some? then first else Some(at)))
      else r == Err(NotFound) && after == t
    ensures var (after, r) := UnpublishPage(t, id);
      if id in t.pages && t.pages[id].live then
        && r == Ok(()) && id in after.pages && after == t.(pages := t.pages[id := after.pages[id]])
        && after.pages[id] == t.pages[id].(content := t.pages[id].content.(published := false))
      else r == Err(NotFound) && after == t
  {
  }

  /** Publishing again after an unpublish restores the tables: the first publish instant is history. */
  lemma RepublishRestores(t: Tables, id: Uuid, at: int, later: int)
    requires LivePage(t, id)
    ensures var out := PublishPage(t, id, at).0; PublishPage(UnpublishPage(out, id).0, id, later).0 == out
  {
    var out := PublishPage(t, id, at).0;
    assert Published(Unpublished(Published(t.pages[id], at)), later) == Published(t.pages[id], at);
  }

  // ---- rename ----

  /** A renamed page answers at its new url, nobody at its old one, and no other slot moves. */
  lemma MovedSlots(t: Tables, id: Uuid, url: string, k: string, u: string, site: Option<Uuid>)
    requires Indexed(t) && LivePage(t, id) && !UrlOccupied(t, id, url)
    ensures var after, page := Moved(t, id, url), t.pages[id];
      && KeySlot(after, k, site) == KeySlot(t, k, site)
      && UrlSlot(after, u, site)
         == (if site == page.website && u == url then Some(id)
             else if site == page.website && u == page.content.url then None
             else UrlSlot(t, u, site))
  {
    var after, page := Moved(t, id, url), t.pages[id];
    assert after.pages == t.pages[id := WithUrl(page, url)];
    hide Moved;
    assert KeyIds(after, k, site) == KeyIds(t, k, site);
    if site == page.website && u == url {
      assert UrlIds(after, u, site) == {id};
    } else if site == page.website && u == page.content.url {
      AloneAtUrl(t, id);
      assert UrlIds(after, u, site) == {};
    } else {
      assert UrlIds(after, u, site) == UrlIds(t, u, site);
    }
  }

  lemma AloneAtUrl(t: Tables, id: Uuid)
    requires Indexed(t) && LivePage(t, id)
    ensures UrlIds(t, t.pages[id].content.url, t.pages[id].website) == {id}
  {
  }

  /** A rename is accepted exactly when the url is valid, the page lives, the slot is free or its own, and the redirect can be kept. */
  lemma RenameAcceptedIff(t: Tables, id: Uuid, url: string, redirect: Option<int>, redirectId: Uuid)
    requires Indexed(t)
    ensures RenamePage(t, id, url, redirect, redirectId).1.Ok? <==>
      && ValidateUrl(url).Ok? && LivePage(t, id) && UrlSlot(t, url, t.pages[id].website) in {None, Some(id)}
      && (redirect.Some? ==>
            && redirect.value in {301, 302} && t.pages[id].website.Some?
            && (t.pages[id].website.value in t.websites
                || RedirectTaken(t, redirectId, t.pages[id].website.value, t.pages[id].content.url)))
  {
    hide ValidateUrl;
    if LivePage(t, id) {
      OccupiedIs(t, id, url);
      assert Moved(t, id, url).redirects == t.redirects && Moved(t, id, url).websites.Keys == t.websites.Keys;
      hide Moved, UrlSlot, UrlOccupied;
    }
  }

  /** A renamed page keeps every column but its url, and every other page, block and member is untouched. */
  lemma RenameTouches(t: Tables, id: Uuid, url: string, redirect: Option<int>, redirectId: Uuid)
    ensures var (after, r) := RenamePage(t, id, url, redirect, redirectId);
      && (r.Err? ==> after == t)
      && (r.Ok? ==>
            && id in t.pages && id in after.pages && after.pages == t.pages[id := after.pages[id]]
            && after.pages[id] == t.pages[id].(content := t.pages[id].content.(url := url))
            && after.blocks == t.blocks && after.menuBlocks == t.menuBlocks && after.members == t.members
            && (redirect.None? ==> after.redirects == t.redirects)
            && (forall r :: r in t.redirects && r != redirectId ==> r in after.redirects && after.redirects[r] == t.redirects[r])
            && (forall r :: r in after.redirects && r != redirectId ==> r in t.redirects))
  {
    hide ValidateUrl, UrlOccupied, RedirectTaken, MenusFollow, HomepageFollows;
  }

  /** Which refusal a rename gives. */
  lemma RenameRefusals(t: Tables, id: Uuid, url: string, redirect: Option<int>, redirectId: Uuid)
    requires Indexed(t) && RenamePage(t, id, url, redirect, redirectId).1.Err?
    ensures var error := RenamePage(t, id, url, redirect, redirectId).1.error;
      if ValidateUrl(url).Err? then error == InvalidInput
      else if !LivePage(t, id) then error == NotFound
      else if UrlSlot(t, url, t.pages[id].website) !in {None, Some(id)} then error == SpecificityConflict
      else if redirect !in {Some(301), Some(302)} then redirect.Some? && error == InvalidInput
      else if t.pages[id].website.None? then error == NotNull
      else error == ForeignKey && t.pages[id].website.value !in t.websites
  {
    hide ValidateUrl, RedirectTaken;
    if LivePage(t, id) {
      OccupiedIs(t, id, url);
      assert Moved(t, id, url).redirects == t.redirects && Moved(t, id, url).websites.Keys == t.websites.Keys;
      hide Moved, UrlSlot, UrlOccupied;
    }
  }

  lemma OccupiedIs(t: Tables, id: Uuid, url: string)
    requires Indexed(t) && LivePage(t, id)
    ensures UrlOccupied(t, id, url) <==> UrlSlot(t, url, t.pages[id].website) !in {None, Some(id)}
  {
    var ids := UrlIds(t, url, t.pages[id].website);
    if UrlOccupied(t, id, url) {
      var j :| j in t.pages && t.pages[j].live && j != id && t.pages[j].website == t.pages[id].website && t.pages[j].content.url == url;
      SlotHolds(t, j);
    } else {
      assert forall j :: j in ids ==> j == id;
    }
  }

  /** The menus and the homepage of the page's website follow the url; nothing else in those tables changes. */
  lemma RenameCarriesLinks(t: Tables, id: Uuid, url: string, w: Uuid, m: Uuid)
    requires LivePage(t, id) && t.pages[id].website == Some(w)
    ensures var after, oldUrl := Moved(t, id, url), t.pages[id].content.url;
      && after.menus.Keys == t.menus.Keys && after.websites.Keys == t.websites.Keys
      && (m in t.menus ==> (
            var follows := t.menus[m].live && t.menus[m].website == w && t.menus[m].url == Some(oldUrl);
            after.menus[m] == if follows then t.menus[m].(url := Some(url)) else t.menus[m]))
      && (m in t.menus && t.menus[m].live && t.menus[m].website == w && url != oldUrl ==> after.menus[m].url != Some(oldUrl))
      && (m in t.websites && m != w ==> after.websites[m] == t.websites[m])
      && (w in t.websites ==>
            after.websites[w] == if t.websites[w].homepageUrl == oldUrl then t.websites[w].(homepageUrl := url) else t.websites[w])
  {
  }

  // ---- delete of a specific ----

  /** A delete is accepted exactly for a live page of a website; a generic is left to the fanout, and a refusal writes nothing. */
  lemma DeleteAcceptedIff(t: Tables, id: Uuid)
    ensures var (after, r) := DeleteSpecific(t, id);
      && (r.Ok? <==> id in t.pages && t.pages[id].live && t.pages[id].website.Some?)
      && (r == Err(NotFound) <==> id !in t.pages || !t.pages[id].live)
      && (r == Err(GenericRequiresFanoutVerb) <==> id in t.pages && t.pages[id].live && t.pages[id].website.None?)
      && (r.Err? ==> after == t)
      && (r.Ok? ==> after == t.(pages := t.pages[id := t.pages[id].(live := false)], menus := after.menus))
  {
  }

  /** Whatever is asked to be deleted, no generic is lost: not by key and not by url. */
  lemma DeleteLeavesGenerics(t: Tables, id: Uuid, k: string, u: string)
    ensures var after := DeleteSpecific(t, id).0;
      KeySlot(after, k, None) == KeySlot(t, k, None) && UrlSlot(after, u, None) == UrlSlot(t, u, None)
  {
    var after := DeleteSpecific(t, id).0;
    DeleteAcceptedIff(t, id);
    hide DeleteSpecific;
    if after != t {
      assert KeyIds(after, k, None) == KeyIds(t, k, None);
      assert UrlIds(after, u, None) == UrlIds(t, u, None);
    }
  }

  /** By url too the website falls back to the generic there, and every other url of every website stays. */
  lemma DeleteFallsBackByUrl(t: Tables, id: Uuid, w: Uuid, u: string, v: Uuid)
    requires Indexed(t) && LivePage(t, id) && t.pages[id].website == Some(w)
    ensures var after, url := DeleteSpecific(t, id).0, t.pages[id].content.url;
      && ResolvePageByUrl(t, url, w) == Specific(id)
      && ResolvePageByUrl(after, u, v) == (if u == url && v == w then Fold(None, UrlSlot(t, url, None)) else ResolvePageByUrl(t, u, v))
  {
    var after := DeleteSpecific(t, id).0;
    DeleteAcceptedIff(t, id);
    DeleteLeavesGenerics(t, id, "", u);
    SlotHolds(t, id);
    hide DeleteSpecific;
    if u == t.pages[id].content.url && v == w {
      AloneAtUrl(t, id);
      assert UrlIds(after, u, Some(v)) == {};
    } else {
      assert id !in UrlIds(t, u, Some(v));
      assert UrlIds(after, u, Some(v)) == UrlIds(t, u, Some(v));
    }
  }

  /** With its own page gone the website falls back to the generic for that key, and no other resolution changes. */
  lemma DeleteFallsBack(t: Tables, id: Uuid, w: Uuid, k: string, v: Uuid)
    requires Indexed(t) && LivePage(t, id) && t.pages[id].website == Some(w)
    ensures var after, key := DeleteSpecific(t, id).0, t.pages[id].key;
      && ResolveSpecific(t, key, w) == Specific(id)
      && ResolveSpecific(after, k, v) == (if k == key && v == w then Fold(None, ResolveGeneric(t, key)) else ResolveSpecific(t, k, v))
  {
    var after, page := DeleteSpecific(t, id).0, t.pages[id];
    SlotHolds(t, id);
    assert after.pages == t.pages[id := page.(live := false)];
    hide DeleteSpecific;
    assert KeyIds(after, k, None) == KeyIds(t, k, None);
    assert KeyIds(after, k, Some(v)) == KeyIds(t, k, Some(v)) - {id};
    if k == page.key && v == w {
      AloneAtKey(t, id);
    } else {
      assert id !in KeyIds(t, k, Some(v));
      assert KeyIds(after, k, Some(v)) == KeyIds(t, k, Some(v));
    }
  }

  lemma AloneAtKey(t: Tables, id: Uuid)
    requires Indexed(t) && LivePage(t, id)
    ensures KeyIds(t, t.pages[id].key, t.pages[id].website) == {id}
  {
  }

  /** No live menu stays on the dead page: each goes to the generic, or to no page when there is none. */
  lemma DeleteRebindsMenus(t: Tables, id: Uuid, m: Uuid)
    requires LivePage(t, id) && t.pages[id].website.Some? && m in t.menus
    ensures var after := DeleteSpecific(t, id).0;
      && after.menus.Keys == t.menus.Keys
      && after.menus[m] == (if t.menus[m].live && t.menus[m].page == Some(id)
                            then t.menus[m].(page := ResolveGeneric(t, t.pages[id].key)) else t.menus[m])
      && (t.menus[m].live ==> after.menus[m].page != Some(id))
  {
    var page := t.pages[id];
    var dead := t.(pages := t.pages[id := page.(live := false)]);
    assert KeyIds(dead, page.key, None) == KeyIds(t, page.key, None);
    assert id !in KeyIds(t, page.key, None);
  }

  // ---- the public read ----

  /** Whatever is served is a live, published, due page of the website or a generic one, at the url that was asked for. */
  lemma ServedBelongs(t: Tables, w: Uuid, url: string, principal: Option<Uuid>, now: int)
    requires VisiblePage(t, w, url, principal, now).Ok? && VisiblePage(t, w, url, principal, now).value.Some?
    ensures var page := VisiblePage(t, w, url, principal, now).value.value;
      && LivePage(t, page.id) && page.row == t.pages[page.id] && page.blocks == BlocksOf(t, page.id)
      && page.row.website in {Some(w), None} && page.row.content.url == url && page.row.content.published
      && (page.row.content.datePublish.Some? ==> page.row.content.datePublish.value <= now)
      && (page.row.website.None? ==> UrlSlot(t, url, Some(w)).None?)
      && (page.row.content.visibility.Connected? ==> principal.Some?)
      && (page.row.content.visibility.Restricted? ==> principal.Some? && HasRole(t, w, principal.value, page.row.content.roles))
  {
    var row := VisiblePage(t, w, url, principal, now).value.value.row;
    TierIs(t, row.content.visibility, row.content.roles, w, principal);
  }

  /** A membership of the website in one of the roles. */
  ghost predicate HasRole(t: Tables, w: Uuid, principal: Uuid, roles: seq<string>) {
    exists m :: m in t.members && m.website == w && m.principal == principal && m.role in roles
  }

  /**
   Who is served a page that is out: everybody a public one, every principal a connected one, and a
   restricted one exactly the principals with a membership of this website in one of the page's roles.
   Everybody else is refused.
   */
  lemma ReadersAre(t: Tables, w: Uuid, url: string, principal: Option<Uuid>, now: int)
    requires !ResolvePageByUrl(t, url, w).NoRow?
    requires var row := t.pages[ResolvePageByUrl(t, url, w).id];
      row.content.published && (row.content.datePublish.Some? ==> row.content.datePublish.value <= now)
    ensures var id := ResolvePageByUrl(t, url, w).id;
      var row, answer := t.pages[id], VisiblePage(t, w, url, principal, now);
      && (answer == Ok(Some(PublicPage(id, row, BlocksOf(t, id)))) || answer == Err(VisibilityRefused))
      && (row.content.visibility.Public? ==> answer.Ok?)
      && (row.content.visibility.Connected? ==> (answer.Ok? <==> principal.Some?))
      && (row.content.visibility.Restricted? ==>
            (answer.Ok? <==> principal.Some? && HasRole(t, w, principal.value, row.content.roles)))
  {
    var row := t.pages[ResolvePageByUrl(t, url, w).id];
    TierIs(t, row.content.visibility, row.content.roles, w, principal);
    hide TierPasses, ResolvePageByUrl;
  }

  lemma TierIs(t: Tables, visibility: Visibility, roles: seq<string>, w: Uuid, principal: Option<Uuid>)
    ensures visibility.Public? ==> TierPasses(t, visibility, roles, w, principal)
    ensures visibility.Connected? ==> (TierPasses(t, visibility, roles, w, principal) <==> principal.Some?)
    ensures visibility.Restricted? ==>
      (TierPasses(t, visibility, roles, w, principal) <==> principal.Some? && HasRole(t, w, principal.value, roles))
  {
    if m :| visibility.Restricted? && principal.Some? && m in t.members && m.website == w && m.principal == principal.value && m.role in roles {
      assert Member(w, principal.value, m.role) in t.members;
    }
  }

  /** A membership of another website, or in another role, opens nothing. */
  lemma StrangersAreRefused(t: Tables, w: Uuid, url: string, principal: Uuid, now: int)
    requires !ResolvePageByUrl(t, url, w).NoRow?
    requires var row := t.pages[ResolvePageByUrl(t, url, w).id];
      && row.content.published && (row.content.datePublish.Some? ==> row.content.datePublish.value <= now)
      && row.content.visibility.Restricted?
      && forall m :: m in t.members && m.principal == principal ==> m.website != w || m.role !in row.content.roles
    ensures VisiblePage(t, w, url, Some(principal), now) == Err(VisibilityRefused)
  {
    ReadersAre(t, w, url, Some(principal), now);
  }

  /** Where nothing resolves, or the page is not out yet, there is nothing for anybody, and no refusal either. */
  lemma NothingThere(t: Tables, w: Uuid, url: string, principal: Option<Uuid>, now: int)
    ensures var r := ResolvePageByUrl(t, url, w);
      (VisiblePage(t, w, url, principal, now) == Ok(None) <==>
        r.NoRow? || !t.pages[r.id].content.published
        || (t.pages[r.id].content.datePublish.Some? && t.pages[r.id].content.datePublish.value > now))
  {
    hide ResolvePageByUrl, TierPasses;
    InTable(t, url, w);
  }

  lemma InTable(t: Tables, url: string, w: Uuid)
    ensures !ResolvePageByUrl(t, url, w).NoRow? ==> ResolvePageByUrl(t, url, w).id in t.pages
  {
  }

  /** What an anonymous visitor is served, every principal is served; and a refusal only ever tells of a page that is out. */
  lemma SigningInOnlyOpens(t: Tables, w: Uuid, url: string, principal: Uuid, now: int)
    ensures var anonymous, known := VisiblePage(t, w, url, None, now), VisiblePage(t, w, url, Some(principal), now);
      && (anonymous.Ok? ==> known == anonymous)
      && (anonymous.Err? ==> known.Err? || known.value.Some?)
  {
  }
}
