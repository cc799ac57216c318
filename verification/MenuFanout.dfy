/**
 What the menu fan-out leaves: one copy on every other live website, under that website's own
 root, bound to that website's own page for the key, with the source's blocks.
 */
module MenuFanout {
  import opened Common
  import opened Schema
  import opened Specificity
  import opened MenuVerbs

  /** The new ids and the websites they go to. */
  function Given(targets: seq<Uuid>, base: Uuid, n: nat): (given: map<Uuid, Uuid>)
    requires n <= |targets|
    ensures forall k :: k in given <==> base <= k < base + n
    ensures forall k :: k in given ==> given[k] == targets[k - base]
  {
    if n == 0 then map[] else Given(targets, base, n - 1)[base + n - 1 := targets[n - 1]]
  }

  /** The copies the websites receive. */
  function Copies(t: Tables, source: Menu, given: map<Uuid, Uuid>): map<Uuid, Menu> {
    map k | k in given :: CopyFor(t, source, given[k])
  }

  function BlockCopies(blocks: multiset<Block>, given: map<Uuid, Uuid>): map<Uuid, multiset<Block>> {
    map k | k in given :: blocks
  }

  function WithAll(t: Tables, id: Uuid, source: Menu, given: map<Uuid, Uuid>): Tables {
    t.(menus := t.menus + Copies(t, source, given), menuBlocks := t.menuBlocks + BlockCopies(MenuBlocksOf(t, id), given))
  }

  ghost predicate Distinct(targets: seq<Uuid>) {
    forall i, j :: 0 <= i < j < |targets| ==> targets[i] != targets[j]
  }

  lemma FirstIsUnique(menus: Menus, ids: set<Uuid>, x: Uuid, y: Uuid)
    requires ids <= menus.Keys && IsFirstOf(menus, ids, x) && IsFirstOf(menus, ids, y)
    ensures x == y
  {
  }

  /** Copies planted on other websites do not change a website's root. */
  lemma SameRoot(menus: Menus, after: Menus, w: Uuid)
    requires forall m :: m in menus ==> m in after && after[m] == menus[m]
    requires forall m :: m in after && m !in menus ==> after[m].website != w
    ensures TargetRoot(after, w) == TargetRoot(menus, w)
  {
    var ids := RootsOf(menus, w);
    assert RootsOf(after, w) == ids;
    if ids != {} {
      var x, y := FirstBySequence(menus, ids), FirstBySequence(after, ids);
      forall m | m in ids ensures NotAfter(menus, y, m) {
        assert NotAfter(after, y, m);
      }
      FirstIsUnique(menus, ids, x, y);
    }
  }

  lemma SameCopy(t: Tables, after: Tables, source: Menu, w: Uuid)
    requires after.pages == t.pages && TargetRoot(after.menus, w) == TargetRoot(t.menus, w)
    ensures CopyFor(after, source, w) == CopyFor(t, source, w)
  {
  }

  lemma CopiesNext(t: Tables, id: Uuid, source: Menu, given: map<Uuid, Uuid>, w: Uuid, newId: Uuid)
    requires newId !in t.menus && newId !in t.menuBlocks && newId !in given && id !in given
    requires CopyFor(WithAll(t, id, source, given), source, w) == CopyFor(t, source, w)
    ensures newId !in WithAll(t, id, source, given).menus
    ensures WithMenuCopy(WithAll(t, id, source, given), id, source, w, newId) == WithAll(t, id, source, given[newId := w])
  {
    hide CopyFor;
    var c, blocks := WithAll(t, id, source, given), MenuBlocksOf(t, id);
    assert MenuBlocksOf(c, newId) + MenuBlocksOf(c, id) == blocks;
    MenuNext(t, source, given, w, newId);
    BlocksNext(t.menuBlocks, blocks, given, w, newId);
  }

  lemma MenuNext(t: Tables, source: Menu, given: map<Uuid, Uuid>, w: Uuid, newId: Uuid)
    ensures (t.menus + Copies(t, source, given))[newId := CopyFor(t, source, w)] == t.menus + Copies(t, source, given[newId := w])
  {
  }

  lemma BlocksNext(all: map<Uuid, multiset<Block>>, blocks: multiset<Block>, given: map<Uuid, Uuid>, w: Uuid, newId: Uuid)
    ensures (all + BlockCopies(blocks, given))[newId := blocks] == all + BlockCopies(blocks, given[newId := w])
  {
  }

  lemma CopiesElsewhere(t: Tables, id: Uuid, source: Menu, given: map<Uuid, Uuid>, w: Uuid)
    requires forall k :: k in given ==> given[k] != w && k !in t.menus
    ensures CopyFor(WithAll(t, id, source, given), source, w) == CopyFor(t, source, w)
  {
    var c := WithAll(t, id, source, given);
    SameRoot(t.menus, c.menus, w);
    SameCopy(t, c, source, w);
  }

  /** The loop of inserts in closed form: each copy is as if it were made first. */
  lemma {:induction false} FanoutCopies(t: Tables, id: Uuid, source: Menu, targets: seq<Uuid>, base: Uuid, n: nat)
    requires Fresh(t, base) && id in t.menus && Distinct(targets) && n <= |targets|
    ensures CopyMenus(t, id, source, targets, base, n).tables == WithAll(t, id, source, Given(targets, base, n))
    ensures CopyMenus(t, id, source, targets, base, n).created == seq(n, i => base + i)
  {
    hide WithAll, WithMenuCopy, CopyFor;
    if n == 0 {
      NoCopies(t, id, source);
    } else {
      FanoutCopies(t, id, source, targets, base, n - 1);
      var w, newId, given := targets[n - 1], base + n - 1, Given(targets, base, n - 1);
      var done := CopyMenus(t, id, source, targets, base, n - 1);
      hide Given, CopyMenus;
      CopiesElsewhere(t, id, source, given, w);
      CopiesNext(t, id, source, given, w, newId);
      Unfold(t, id, source, targets, base, n, done, w, newId);
    }
  }

  lemma Unfold(t: Tables, id: Uuid, source: Menu, targets: seq<Uuid>, base: Uuid, n: nat, done: MenuCopies, w: Uuid, newId: Uuid)
    requires 0 < n <= |targets| && w == targets[n - 1] && newId == base + n - 1 && done == CopyMenus(t, id, source, targets, base, n - 1)
    requires newId !in done.tables.menus && done.created == seq(n - 1, i => base + i)
    ensures CopyMenus(t, id, source, targets, base, n).tables == WithMenuCopy(done.tables, id, source, w, newId)
    ensures CopyMenus(t, id, source, targets, base, n).created == seq(n, i => base + i)
    ensures Given(targets, base, n) == Given(targets, base, n - 1)[newId := w]
  {
    hide WithMenuCopy;
  }

  lemma NoCopies(t: Tables, id: Uuid, source: Menu)
    ensures WithAll(t, id, source, map[]) == t
  {
    assert t.menus + Copies(t, source, map[]) == t.menus;
    assert t.menuBlocks + BlockCopies(MenuBlocksOf(t, id), map[]) == t.menuBlocks;
  }

  /**
   The fan-out of a live menu: the i-th other live website gets exactly the i-th new id, every menu
   that was there is untouched, and the copy carries the source's blocks once.
   */
  lemma FanoutMenuIs(t: Tables, id: Uuid, base: Uuid, i: nat)
    requires Fresh(t, base) && id in t.menus && t.menus[id].live
    ensures var (after, answer) := FanoutMenu(t, id, base);
      var source, targets := t.menus[id], OtherWebsites(t, t.menus[id].website);
      && answer == Ok(seq(|targets|, k => base + k))
      && after.menus == t.menus + Copies(t, source, Given(targets, base, |targets|))
      && (i < |targets| ==> base + i in after.menus && after.menus[base + i] == CopyFor(t, source, targets[i])
                            && MenuBlocksOf(after, base + i) == MenuBlocksOf(t, id))
      && after.pages == t.pages && after.websites == t.websites && after.blocks == t.blocks
  {
    hide CopyFor;
    var source, targets := t.menus[id], OtherWebsites(t, t.menus[id].website);
    FanoutCopies(t, id, source, targets, base, |targets|);
  }

  predicate SameKey(t: Tables, a: Option<Uuid>, b: Option<Uuid>) {
    a.Some? && b.Some? && a.value in t.pages && b.value in t.pages && t.pages[a.value].key == t.pages[b.value].key
  }

  /** A copy is never bound to another website's page, and its parent is a live root of its own website. */
  lemma CopyStaysHome(t: Tables, source: Menu, w: Uuid)
    ensures var m := CopyFor(t, source, w);
      && m.website == w && BoundTo(t, w, source.page, m.page)
      && (m.page.Some? ==> LivePage(t, m.page.value) && t.pages[m.page.value].website in {Some(w), None} && SameKey(t, m.page, source.page))
      && (m.parent.Some? ==> !source.mega && m.parent.value in RootsOf(t.menus, w))
  {
  }

  // ---- what a copy is ----

  /** What the website resolves the page's key to: its own page, or the generic. */
  ghost predicate BoundTo(t: Tables, w: Uuid, source: Option<Uuid>, page: Option<Uuid>) {
    if source.None? || source.value !in t.pages then page.None?
    else
      var key := t.pages[source.value].key;
      if KeySlot(t, key, Some(w)).Some? then page == KeySlot(t, key, Some(w)) else page == KeySlot(t, key, None)
  }

  predicate IsLiveRoot(menus: Menus, w: Uuid, x: Uuid) {
    x in menus && menus[x].live && menus[x].website == w && menus[x].parent.None?
  }

  /** The live root of the website with the least sequence, and the least id among those; nothing when there is no live root. */
  ghost predicate IsFirstRoot(menus: Menus, w: Uuid, root: Option<Uuid>) {
    match root
    case None => forall x :: !IsLiveRoot(menus, w, x)
    case Some(r) =>
      && IsLiveRoot(menus, w, r)
      && forall x :: IsLiveRoot(menus, w, x) && x != r ==>
           menus[r].sequence < menus[x].sequence || (menus[r].sequence == menus[x].sequence && r < x)
  }

  /**
   The copy of a live menu on each other live website: bound to what that website resolves the
   source's key to, under the website's first live root unless it is a mega menu, and equal to the
   source in every other column; with the source's blocks.
   */
  lemma CopyIs(t: Tables, id: Uuid, base: Uuid, w: Uuid) returns (copy: Uuid)
    requires Fresh(t, base) && id in t.menus && t.menus[id].live
    requires w in t.websites && t.websites[w].live && w != t.menus[id].website
    ensures var after, source := FanoutMenu(t, id, base).0, t.menus[id];
      && copy >= base && copy in after.menus && copy !in t.menus && FanoutMenu(t, id, base).1.Ok?
      && copy in FanoutMenu(t, id, base).1.value
      && (forall x :: x in after.menus && x !in t.menus && after.menus[x].website == w ==> x == copy)
      && MenuBlocksOf(after, copy) == MenuBlocksOf(t, id)
      && var m := after.menus[copy];
         && m.website == w && BoundTo(t, w, source.page, m.page)
         && (if source.mega then m.parent.None? else IsFirstRoot(t.menus, w, m.parent))
         && m.name == source.name && m.url == source.url && m.newWindow == source.newWindow && m.sequence == source.sequence
         && m.visibility == source.visibility && m.roles == source.roles && m.mega == source.mega && m.live
  {
    var source, targets := t.menus[id], OtherWebsites(t, t.menus[id].website);
    assert w in targets;
    var i :| 0 <= i < |targets| && targets[i] == w;
    copy := base + i;
    assert base + i !in t.menus;
    hide FanoutMenu, OtherWebsites, Fresh, MenuBlocksOf, CopyFor, BoundTo, IsFirstRoot;
    FanoutMenuIs(t, id, base, i);
    OnlyCopy(t, id, base, i);
    CopyColumns(t, source, w);
    assert (seq(|targets|, k => base + k))[i] == copy;
  }

  lemma CopyColumns(t: Tables, source: Menu, w: Uuid)
    ensures var m := CopyFor(t, source, w);
      && m.website == w && BoundTo(t, w, source.page, m.page)
      && (if source.mega then m.parent.None? else IsFirstRoot(t.menus, w, m.parent))
      && m.name == source.name && m.url == source.url && m.newWindow == source.newWindow && m.sequence == source.sequence
      && m.visibility == source.visibility && m.roles == source.roles && m.mega == source.mega && m.live
  {
    var roots := RootsOf(t.menus, w);
    assert forall x :: x in roots <==> IsLiveRoot(t.menus, w, x);
    hide KeySlot;
  }

  /** One copy per website. */
  lemma OnlyCopy(t: Tables, id: Uuid, base: Uuid, i: nat)
    requires Fresh(t, base) && id in t.menus && t.menus[id].live && i < |OtherWebsites(t, t.menus[id].website)|
    ensures var after, w := FanoutMenu(t, id, base).0, OtherWebsites(t, t.menus[id].website)[i];
      forall x :: x in after.menus && x !in t.menus && after.menus[x].website == w ==> x == base + i
  {
    var source, targets := t.menus[id], OtherWebsites(t, t.menus[id].website);
    var after, given := FanoutMenu(t, id, base).0, Given(targets, base, |targets|);
    FanoutMenuIs(t, id, base, i);
    hide FanoutMenu, Fresh, OtherWebsites;
    forall x | x in after.menus && x !in t.menus && after.menus[x].website == targets[i] ensures x == base + i {
      assert x in given && given[x] == targets[x - base];
    }
  }

  /** A menu that is not live is not fanned out, and nothing is written. */
  lemma FanoutRefusal(t: Tables, id: Uuid, base: Uuid)
    ensures FanoutMenu(t, id, base).1.Err? <==> !(id in t.menus && t.menus[id].live)
    ensures FanoutMenu(t, id, base).1.Err? ==> FanoutMenu(t, id, base) == (t, Err(NotFound))
  {
    hide CopyMenus, OtherWebsites;
  }
}
