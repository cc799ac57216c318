/**
 What a fork keeps, and that deleting the forked page undoes it.
 */
module ForkProofs {
  import opened Common
  import opened Schema
  import opened Specificity
  import opened Versioning
  import Pages
  import PageProofs

  lemma ForkKeepsIndexes(t: Tables, key: string, w: Uuid, newId: Uuid)
    requires Indexed(t)
    ensures Indexed(Fork(t, key, w, newId).0)
  {
  }

  /** What a landed copy does to every key slot and every url slot. */
  lemma SlotsAfterCopy(t: Tables, generic: Uuid, w: Uuid, newId: Uuid, k: string, u: string, site: Option<Uuid>)
    requires CopyLands(t, generic, w, newId)
    ensures var after := WithCopy(t, generic, w, newId);
      && KeySlot(after, k, site) == (if k == t.pages[generic].key && site == Some(w) then Some(newId) else KeySlot(t, k, site))
      && UrlSlot(after, u, site) == (if u == t.pages[generic].content.url && site == Some(w) then Some(newId) else UrlSlot(t, u, site))
  {
    var after := WithCopy(t, generic, w, newId);
    if k == t.pages[generic].key && site == Some(w) {
      assert KeyIds(after, k, site) == {newId};
    } else {
      assert KeyIds(after, k, site) == KeyIds(t, k, site);
    }
    if u == t.pages[generic].content.url && site == Some(w) {
      assert UrlIds(after, u, site) == {newId};
    } else {
      assert UrlIds(after, u, site) == UrlIds(t, u, site);
    }
  }

  lemma CopyShowsTheGeneric(t: Tables, generic: Uuid, w: Uuid, newId: Uuid, id: Uuid)
    requires CopyLands(t, generic, w, newId) && newId !in t.blocks && id in t.pages
    ensures var after := WithCopy(t, generic, w, newId);
      && after.pages[newId].content == t.pages[generic].content && BlocksOf(after, newId) == BlocksOf(t, generic)
      && after.pages[id] == t.pages[id] && BlocksOf(after, id) == BlocksOf(t, id)
  {
  }

  /** A committed fork changes nobody's page: not by key and not by url, on the forking website or any other. */
  lemma ForkKeepsMeaning(t: Tables, key: string, w: Uuid, newId: Uuid, k: string, u: string, v: Uuid)
    requires Indexed(t) && newId !in t.blocks
    ensures Effective(Fork(t, key, w, newId).0, k, v) == Effective(t, k, v)
    ensures EffectiveAt(Fork(t, key, w, newId).0, u, v) == EffectiveAt(t, u, v)
  {
    if Fork(t, key, w, newId).1 == Ok(Created(newId)) && KeySlot(t, key, Some(w)).None? {
      var generic := ResolveGeneric(t, key).value;
      var after := WithCopy(t, generic, w, newId);
      SlotHolds(t, generic);
      SlotsAfterCopy(t, generic, w, newId, k, u, Some(v));
      SlotsAfterCopy(t, generic, w, newId, k, u, None);
      ReadsAfterCopy(t, generic, w, newId, k, u, v);
      MenusDoNotMatter(after, Repointed(after.menus, w, generic, newId), k, u, v);
    }
  }

  lemma MenusDoNotMatter(t: Tables, menus: map<Uuid, Menu>, k: string, u: string, v: Uuid)
    ensures Effective(t.(menus := menus), k, v) == Effective(t, k, v)
    ensures EffectiveAt(t.(menus := menus), u, v) == EffectiveAt(t, u, v)
  {
  }

  lemma ReadsAfterCopy(t: Tables, generic: Uuid, w: Uuid, newId: Uuid, k: string, u: string, v: Uuid)
    requires Indexed(t) && newId !in t.blocks && CopyLands(t, generic, w, newId)
    requires t.pages[generic].website.None? && KeySlot(t, t.pages[generic].key, Some(w)).None?
    ensures Effective(WithCopy(t, generic, w, newId), k, v) == Effective(t, k, v)
    ensures EffectiveAt(WithCopy(t, generic, w, newId), u, v) == EffectiveAt(t, u, v)
  {
    SlotHolds(t, generic);
    SlotsAfterCopy(t, generic, w, newId, k, u, Some(v));
    SlotsAfterCopy(t, generic, w, newId, k, u, None);
    var byKey, byUrl := ResolveSpecific(t, k, v), ResolvePageByUrl(t, u, v);
    CopyShowsTheGeneric(t, generic, w, newId, if byKey.NoRow? then generic else byKey.id);
    CopyShowsTheGeneric(t, generic, w, newId, if byUrl.NoRow? then generic else byUrl.id);
    assert UrlSlot(t, t.pages[generic].content.url, Some(w)).None? by {
      if UrlSlot(t, t.pages[generic].content.url, Some(w)).Some? {
        var j := UrlSlot(t, t.pages[generic].content.url, Some(w)).value;
        assert Clash(t.pages[j], SpecificCopy(t.pages[generic], generic, w));
      }
    }
  }

  /**
   What a fork answers, in terms of what resolves: the website's own page if it has one; a missing
   source if there is no generic; a refusal when another page of the website holds the generic's
   url; and otherwise a new page.
   */
  lemma ForkOutcomeIs(t: Tables, key: string, w: Uuid, newId: Uuid)
    requires newId !in t.pages
    ensures var own, source := KeySlot(t, key, Some(w)), KeySlot(t, key, None);
      Fork(t, key, w, newId).1
      == if own.Some? then Ok(Existing(own.value))
         else if source.None? then Err(ForkSourceMissing)
         else if UrlSlot(t, t.pages[source.value].content.url, Some(w)).Some? then Err(Internal)
         else if w !in t.websites then Err(ForeignKey)
         else Ok(Created(newId))
  {
    var source := ResolveGeneric(t, key);
    if source.Some? {
      assert source.value in KeyIds(t, key, None);
      var row := SpecificCopy(t.pages[source.value], source.value, w);
      PageProofs.FreeSlots(t, newId, row);
      hide Conflicts, KeySlot, UrlSlot;
    }
  }

  /** The answer names the specific that now resolves, and it is new exactly when there was none. */
  lemma ForkAnswers(t: Tables, key: string, w: Uuid, newId: Uuid)
    requires Fork(t, key, w, newId).1.Ok?
    ensures var (after, answer) := Fork(t, key, w, newId);
      && ResolveSpecific(after, key, w) == Specific(answer.value.id)
      && (answer.value.Created? <==> !ResolveSpecific(t, key, w).Specific?)
  {
    if KeySlot(t, key, Some(w)).None? {
      var generic := ResolveGeneric(t, key).value;
      var copied := WithCopy(t, generic, w, newId);
      SlotsAfterCopy(t, generic, w, newId, key, "", Some(w));
      var after := copied.(menus := Repointed(copied.menus, w, generic, newId));
      assert KeyIds(after, key, Some(w)) == KeyIds(copied, key, Some(w));
    }
  }

  /** A fork run twice answers with the same row and does nothing the second time. */
  lemma ForkIsIdempotent(t: Tables, key: string, w: Uuid, newId: Uuid, otherId: Uuid)
    requires Fork(t, key, w, newId).1.Ok?
    ensures var (after, answer) := Fork(t, key, w, newId);
      Fork(after, key, w, otherId) == (after, Ok(Existing(answer.value.id)))
  {
    ForkAnswers(t, key, w, newId);
  }

  // ---- fork, then delete the forked page ----

  lemma MenusReturn(menus: map<Uuid, Menu>, w: Uuid, generic: Uuid, newId: Uuid)
    requires forall m :: m in menus ==> menus[m].page != Some(newId)
    ensures Pages.MenusRebound(Repointed(menus, w, generic, newId), newId, Some(generic)) == menus
  {
  }

  /** A dead row changes no slot. */
  lemma DeadRowIsInvisible(a: Tables, b: Tables, id: Uuid, row: Page, k: string, u: string, site: Option<Uuid>)
    requires id !in a.pages && !row.live && b.pages == a.pages[id := row]
    ensures KeySlot(b, k, site) == KeySlot(a, k, site) && UrlSlot(b, u, site) == UrlSlot(a, u, site)
  {
    assert KeyIds(b, k, site) == KeyIds(a, k, site);
    assert UrlIds(b, u, site) == UrlIds(a, u, site);
  }

  lemma ReadsUnderDeadRow(a: Tables, b: Tables, id: Uuid, row: Page, k: string, u: string, v: Uuid)
    requires id !in a.pages && !row.live && b.pages == a.pages[id := row]
    requires forall i :: i in a.pages ==> BlocksOf(b, i) == BlocksOf(a, i)
    ensures ResolveSpecific(b, k, v) == ResolveSpecific(a, k, v) && Effective(b, k, v) == Effective(a, k, v)
    ensures ResolvePageByUrl(b, u, v) == ResolvePageByUrl(a, u, v) && EffectiveAt(b, u, v) == EffectiveAt(a, u, v)
  {
    DeadRowIsInvisible(a, b, id, row, k, u, Some(v));
    DeadRowIsInvisible(a, b, id, row, k, u, None);
  }

  /** The tables after the round trip: as before, with one more dead page and its blocks. */
  lemma ForkThenDeleteTables(t: Tables, key: string, w: Uuid, newId: Uuid)
    requires Indexed(t) && Fork(t, key, w, newId).1 == Ok(Created(newId)) && KeySlot(t, key, Some(w)).None?
    requires forall m :: m in t.menus ==> t.menus[m].page != Some(newId)
    ensures var generic := ResolveGeneric(t, key).value;
      var deadCopy := SpecificCopy(t.pages[generic], generic, w).(live := false);
      var back := Pages.DeleteSpecific(Fork(t, key, w, newId).0, newId);
      && back.1 == Ok(())
      && back.0 == t.(pages := t.pages[newId := deadCopy], blocks := back.0.blocks)
      && newId !in t.pages
      && (forall id :: id in t.pages ==> BlocksOf(back.0, id) == BlocksOf(t, id))
  {
    var generic := ResolveGeneric(t, key).value;
    var copy := SpecificCopy(t.pages[generic], generic, w);
    var forked := Fork(t, key, w, newId).0;
    var back := Pages.DeleteSpecific(forked, newId);
    var dead := forked.(pages := forked.pages[newId := copy.(live := false)]);
    assert dead.pages == t.pages[newId := copy.(live := false)];
    assert ResolveGeneric(dead, key) == Some(generic) by {
      assert KeyIds(dead, key, None) == KeyIds(t, key, None);
    }
    MenusReturn(t.menus, w, generic, newId);
  }

  /**
   The round trip is an identity for every reader: each website resolves each key and each url as
   before the fork, and every menu row is back where it was.
   */
  lemma ForkThenDelete(t: Tables, key: string, w: Uuid, newId: Uuid, k: string, u: string, v: Uuid)
    requires Indexed(t) && Fork(t, key, w, newId).1 == Ok(Created(newId)) && KeySlot(t, key, Some(w)).None?
    requires forall m :: m in t.menus ==> t.menus[m].page != Some(newId)
    ensures var back := Pages.DeleteSpecific(Fork(t, key, w, newId).0, newId);
      && back.1 == Ok(()) && back.0.menus == t.menus
      && ResolveSpecific(back.0, k, v) == ResolveSpecific(t, k, v) && Effective(back.0, k, v) == Effective(t, k, v)
      && ResolvePageByUrl(back.0, u, v) == ResolvePageByUrl(t, u, v) && EffectiveAt(back.0, u, v) == EffectiveAt(t, u, v)
  {
    ForkThenDeleteTables(t, key, w, newId);
    var back := Pages.DeleteSpecific(Fork(t, key, w, newId).0, newId).0;
    ReadsUnderDeadRow(t, back, newId, back.pages[newId], k, u, v);
  }

  // ---- what a fork writes ----

  /** The new row: the generic's key and every content column of it, on the website, remembering where it came from; the generic's blocks. */
  lemma ForkStores(t: Tables, key: string, w: Uuid, newId: Uuid)
    requires Fork(t, key, w, newId).1 == Ok(Created(newId)) && KeySlot(t, key, Some(w)).None? && newId !in t.blocks
    ensures var after, source := Fork(t, key, w, newId).0, KeySlot(t, key, None);
      && source.Some? && newId !in t.pages && newId in after.pages && after.pages == t.pages[newId := after.pages[newId]]
      && var row := after.pages[newId];
         && row.live && row.key == key && row.website == Some(w) && row.forkedFrom == source
         && row.content == t.pages[source.value].content && BlocksOf(after, newId) == BlocksOf(t, source.value)
  {
    hide Repointed;
  }

  /** The menus of the website that were bound to the generic follow, and no other row does. */
  lemma ForkMoves(t: Tables, key: string, w: Uuid, newId: Uuid, m: Uuid)
    requires Fork(t, key, w, newId).1 == Ok(Created(newId)) && KeySlot(t, key, Some(w)).None?
    ensures var after, generic := Fork(t, key, w, newId).0, KeySlot(t, key, None);
      && after.menus.Keys == t.menus.Keys && after.websites == t.websites && after.redirects == t.redirects
      && after.menuBlocks == t.menuBlocks && after.members == t.members
      && (m in t.menus ==>
            var moves := t.menus[m].live && t.menus[m].website == w && t.menus[m].page == generic;
            after.menus[m] == if moves then t.menus[m].(page := Some(newId)) else t.menus[m])
  {
    hide CopyLands;
  }

  /** A fork that refuses, or finds the website's own page, writes nothing. */
  lemma ForkWritesOnce(t: Tables, key: string, w: Uuid, newId: Uuid)
    ensures var (after, r) := Fork(t, key, w, newId);
      (r.Err? || r.value.Existing?) ==> after == t
  {
    hide CopyLands, Repointed, WithCopy, KeySlot;
  }
}
