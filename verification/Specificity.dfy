/**
 The one generic-vs-specific resolver: for a key or for a url, the website's own live row wins
 and the generic backs it.
 */
module Specificity {
  import opened Common
  import opened Schema

  datatype Resolution = Specific(id: Uuid) | Generic(id: Uuid) | NoRow

  function KeyIds(t: Tables, key: string, site: Option<Uuid>): set<Uuid> {
    set id | id in t.pages && t.pages[id].live && t.pages[id].key == key && t.pages[id].website == site
  }

  function UrlIds(t: Tables, url: string, site: Option<Uuid>): set<Uuid> {
    set id | id in t.pages && t.pages[id].live && t.pages[id].content.url == url && t.pages[id].website == site
  }

  /** The live row in the (key, site) slot; the index leaves at most one. */
  function KeySlot(t: Tables, key: string, site: Option<Uuid>): (r: Option<Uuid>)
    ensures r.Some? ==> r.value in KeyIds(t, key, site)
    ensures r.None? <==> KeyIds(t, key, site) == {}
  {
    First(KeyIds(t, key, site))
  }

  function UrlSlot(t: Tables, url: string, site: Option<Uuid>): (r: Option<Uuid>)
    ensures r.Some? ==> r.value in UrlIds(t, url, site)
    ensures r.None? <==> UrlIds(t, url, site) == {}
  {
    First(UrlIds(t, url, site))
  }

  /** ORDER BY website_id NULLS LAST LIMIT 1, with the arm that answered. */
  function Fold(own: Option<Uuid>, generic: Option<Uuid>): Resolution {
    if own.Some? then Specific(own.value)
    else if generic.Some? then Generic(generic.value)
    else NoRow
  }

  function ResolveSpecific(t: Tables, key: string, w: Uuid): Resolution {
    Fold(KeySlot(t, key, Some(w)), KeySlot(t, key, None))
  }

  function ResolvePageByUrl(t: Tables, url: string, w: Uuid): Resolution {
    Fold(UrlSlot(t, url, Some(w)), UrlSlot(t, url, None))
  }

  function ResolveGeneric(t: Tables, key: string): Option<Uuid> {
    KeySlot(t, key, None)
  }

  function ResolveSpecificEntity(t: Tables, key: string, w: Uuid): Option<Uuid> {
    KeySlot(t, key, Some(w))
  }

  /** What a reader of a page sees: its content columns and its blocks, not its identity. */
  datatype View = View(content: Content, blocks: multiset<Block>)

  function ViewOf(t: Tables, r: Resolution): Option<View>
    requires !r.NoRow? ==> r.id in t.pages
  {
    if r.NoRow? then None else Some(View(t.pages[r.id].content, BlocksOf(t, r.id)))
  }

  /** The effective page of `key` on website `w`. */
  function Effective(t: Tables, key: string, w: Uuid): Option<View> {
    ViewOf(t, ResolveSpecific(t, key, w))
  }

  /** The effective page at `url` on website `w`. */
  function EffectiveAt(t: Tables, url: string, w: Uuid): Option<View> {
    ViewOf(t, ResolvePageByUrl(t, url, w))
  }

  /** Under the indexes a live row is the only one in its two slots. */
  lemma SlotHolds(t: Tables, id: Uuid)
    requires Indexed(t) && LivePage(t, id)
    ensures KeySlot(t, t.pages[id].key, t.pages[id].website) == Some(id)
    ensures UrlSlot(t, t.pages[id].content.url, t.pages[id].website) == Some(id)
  {
    assert id in KeyIds(t, t.pages[id].key, t.pages[id].website);
    assert id in UrlIds(t, t.pages[id].content.url, t.pages[id].website);
  }

  /** Only the pages matter to a slot. */
  lemma SameSlot(t: Tables, t': Tables, key: string, site: Option<Uuid>)
    requires t'.pages == t.pages
    ensures KeySlot(t', key, site) == KeySlot(t, key, site)
  {
  }
}
