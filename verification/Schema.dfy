/**
 The content tables, one map per table keyed by primary key, and the two partial unique
 indexes over live pages. A generic page is a row whose website is None; for the indexes the
 generic is its own site, which is what comparing the option values says.
 */
module Schema {
  import opened Common

  datatype Visibility = Public | Connected | Restricted

  datatype Content = Content(
    url: string,
    title: string,
    seoName: Option<string>,
    published: bool,
    datePublish: Option<int>,
    indexed: bool,
    visibility: Visibility,
    roles: seq<string>)

  datatype Page = Page(
    key: string,
    website: Option<Uuid>,
    content: Content,
    forkedFrom: Option<Uuid>,
    live: bool)

  datatype Block = Block(kind: string, position: int, payload: string)

  datatype Menu = Menu(
    website: Uuid,
    parent: Option<Uuid>,
    name: string,
    page: Option<Uuid>,
    url: Option<string>,
    newWindow: bool,
    sequence: int,
    visibility: Visibility,
    roles: seq<string>,
    mega: bool,
    live: bool)

  datatype Website = Website(domain: string, publicUser: Uuid, lang: string, homepageUrl: string, live: bool)

  datatype RedirectType = Moved301 | Found302 | Alias308 | Gone404

  datatype Redirect = Redirect(website: Uuid, urlFrom: string, kind: RedirectType, urlTo: Option<string>, live: bool)

  datatype Member = Member(website: Uuid, principal: Uuid, role: string)

  datatype Tables = Tables(
    websites: map<Uuid, Website>,
    pages: map<Uuid, Page>,
    blocks: map<Uuid, multiset<Block>>,
    menus: map<Uuid, Menu>,
    menuBlocks: map<Uuid, multiset<Block>>,
    redirects: map<Uuid, Redirect>,
    members: set<Member>)

  /** The block rows of one page. */
  function BlocksOf(t: Tables, page: Uuid): multiset<Block> {
    if page in t.blocks then t.blocks[page] else multiset{}
  }

  predicate LivePage(t: Tables, id: Uuid) {
    id in t.pages && t.pages[id].live
  }

  /** Two live rows that one of the unique indexes would refuse side by side. */
  predicate Clash(p: Page, q: Page) {
    p.website == q.website && (p.key == q.key || p.content.url == q.content.url)
  }

  /** Both unique indexes hold. */
  ghost predicate Indexed(t: Tables) {
    forall i, j :: LivePage(t, i) && LivePage(t, j) && i != j ==> !Clash(t.pages[i], t.pages[j])
  }

  /** An INSERT of `row` under `id` would violate the primary key or a unique index. */
  predicate Conflicts(t: Tables, id: Uuid, row: Page) {
    id in t.pages || exists j :: j in t.pages && t.pages[j].live && Clash(t.pages[j], row)
  }

  /** No table uses an id from `base` on: where new uuids come from. */
  ghost predicate Fresh(t: Tables, base: Uuid) {
    && (forall id :: id in t.pages ==> id < base)
    && (forall id :: id in t.blocks ==> id < base)
    && (forall id :: id in t.menus ==> id < base)
    && (forall id :: id in t.menuBlocks ==> id < base)
    && (forall id :: id in t.redirects ==> id < base)
    && (forall id :: id in t.websites ==> id < base)
    && (forall id :: id in t.menus && t.menus[id].page.Some? ==> t.menus[id].page.value < base)
    && (forall id :: id in t.menus && t.menus[id].parent.Some? ==> t.menus[id].parent.value < base)
  }

  /** An id beyond the ids in use stays beyond them when the bound grows. */
  lemma FreshUnderMore(t: Tables, a: Uuid, b: Uuid)
    requires Fresh(t, a) && a <= b
    ensures Fresh(t, b)
  {
  }

  /** The database the services write: one mutable field per table. */
  class Database {
    var websites: map<Uuid, Website>
    var pages: map<Uuid, Page>
    var blocks: map<Uuid, multiset<Block>>
    var menus: map<Uuid, Menu>
    var menuBlocks: map<Uuid, multiset<Block>>
    var redirects: map<Uuid, Redirect>
    var members: set<Member>
    var nextId: Uuid

    function Snapshot(): Tables
      reads this
    {
      Tables(websites, pages, blocks, menus, menuBlocks, redirects, members)
    }

    ghost predicate Valid()
      reads this
    {
      Fresh(Snapshot(), nextId)
    }

    /** Uuid::new_v4: an id no row uses. */
    method NewId() returns (id: Uuid)
      requires Valid()
      modifies this`nextId
      ensures Valid() && id == old(nextId) && nextId == id + 1
    {
      id := nextId;
      nextId := nextId + 1;
    }

    /** ROLLBACK: every table returns to what it was when the transaction began. */
    method Rollback(saved: Tables)
      modifies this`websites, this`pages, this`blocks, this`menus, this`menuBlocks, this`redirects, this`members
      ensures Snapshot() == saved
    {
      websites, pages, blocks := saved.websites, saved.pages, saved.blocks;
      menus, menuBlocks := saved.menus, saved.menuBlocks;
      redirects, members := saved.redirects, saved.members;
    }
  }
}
