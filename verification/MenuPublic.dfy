/**
 The public menu tree, and exactly when it hides the whole subtree of a hidden menu.
 */
module MenuPublic {
  import opened Common
  import opened Schema
  import opened MenuTree
  import opened MenuForest
  import MenuDepth
  import MenuReads
  import MenuVerbs
  import PageProofs
  import Pages
  import Text

  /** The live rows whose own tier passes. */
  function VisibleRows(t: Tables, w: Uuid, principal: Option<Uuid>): Rows {
    var rows := MenuReads.LiveRows(t, w);
    map m | m in rows && Pages.TierPasses(t, rows[m].visibility, rows[m].roles, w, principal) :: rows[m]
  }

  /** Which live rows of the website a visitor sees, by tier and membership. */
  lemma SeenIff(t: Tables, w: Uuid, principal: Option<Uuid>, m: Uuid)
    ensures var seen := VisibleRows(t, w, principal);
      && (m in seen ==> m in t.menus && seen[m] == t.menus[m])
      && (m in t.menus && t.menus[m].live && t.menus[m].website == w ==>
            && (t.menus[m].visibility.Public? ==> m in seen)
            && (t.menus[m].visibility.Connected? ==> (m in seen <==> principal.Some?))
            && (t.menus[m].visibility.Restricted? ==>
                  (m in seen <==> principal.Some? && PageProofs.HasRole(t, w, principal.value, t.menus[m].roles))))
      && (m in t.menus && !(t.menus[m].live && t.menus[m].website == w) ==> m !in seen)
  {
    if m in t.menus {
      PageProofs.TierIs(t, t.menus[m].visibility, t.menus[m].roles, w, principal);
    }
    hide Pages.TierPasses, PageProofs.HasRole;
  }

  /** The filter: only the direct parent is asked for. */
  function KeptRows(visible: Rows): Rows {
    map m | m in visible && (visible[m].parent.Some? ==> visible[m].parent.value in visible) :: visible[m]
  }

  method TreeVisible(t: Tables, w: Uuid, principal: Option<Uuid>) returns (forest: seq<Node>)
    ensures IsForest(KeptRows(VisibleRows(t, w, principal)), forest)
  {
    forest := BuildTree(KeptRows(VisibleRows(t, w, principal)));
  }

  /** n steps up from x, all visible, is a row without a parent. */
  ghost predicate Chain(visible: Rows, x: Uuid, n: nat)
    decreases n
  {
    x in visible && if n == 0 then visible[x].parent.None? else visible[x].parent.Some? && Chain(visible, visible[x].parent.value, n - 1)
  }

  /** The rows whose entire ancestor chain is visible. */
  ghost predicate ChainVisible(visible: Rows, x: Uuid) {
    exists n: nat :: Chain(visible, x, n)
  }

  /** A visible row under a visible parent whose own parent is hidden. */
  predicate Gap(visible: Rows, x: Uuid) {
    && x in visible && visible[x].parent.Some? && visible[x].parent.value in visible
    && var p := visible[x].parent.value;
       visible[p].parent.Some? && visible[p].parent.value !in visible
  }

  lemma {:induction false} KeptWithoutGaps(visible: Rows, x: Uuid, n: nat)
    requires AtLevel(visible, x, n) && x in KeptRows(visible) && forall y :: !Gap(visible, y)
    ensures ChainVisible(visible, x)
    decreases n
  {
    if n == 0 {
      assert Chain(visible, x, 0);
    } else {
      var p := visible[x].parent.value;
      assert !Gap(visible, x);
      KeptWithoutGaps(visible, p, n - 1);
      var m: nat :| Chain(visible, p, m);
      assert Chain(visible, x, m + 1);
    }
  }

  /** The row below the gap is served, as a root, though it has a parent. */
  lemma GapSurfaces(visible: Rows, x: Uuid)
    requires Gap(visible, x)
    ensures x in KeptRows(visible) && x in Roots(KeptRows(visible)) && visible[x].parent.Some? && !ChainVisible(visible, x)
  {
    var p := visible[x].parent.value;
    forall n: nat ensures !Chain(visible, x, n) {
      if n > 0 {
        assert !Chain(visible, p, n - 1) by { NoChainAtGap(visible, p, n - 1); }
      }
    }
  }

  lemma NoChainAtGap(visible: Rows, p: Uuid, n: nat)
    requires p in visible && visible[p].parent.Some? && visible[p].parent.value !in visible
    ensures !Chain(visible, p, n)
  {
  }

  /** A row with a visible chain is always kept. */
  lemma ChainIsKept(visible: Rows, x: Uuid)
    requires ChainVisible(visible, x)
    ensures x in KeptRows(visible)
  {
    var n: nat :| Chain(visible, x, n);
    assert n > 0 ==> Chain(visible, visible[x].parent.value, n - 1);
  }

  lemma {:induction false} ChainIsLevel(visible: Rows, x: Uuid, n: nat)
    requires Chain(visible, x, n)
    ensures AtLevel(visible, x, n)
    decreases n
  {
    if n > 0 {
      ChainIsLevel(visible, visible[x].parent.value, n - 1);
    }
  }

  /** The filter keeps exactly the rows whose whole chain is visible. */
  ghost predicate FilterIsChain(visible: Rows) {
    forall x :: x in KeptRows(visible) <==> ChainVisible(visible, x)
  }

  /**
   The filter keeps exactly the rows whose whole chain is visible if and only if no visible parent
   stands under a hidden one and every kept row has a way up to a root: it is on no cycle of parents
   and under none.
   */
  lemma FilterIsChainIff(visible: Rows)
    ensures FilterIsChain(visible)
      <==> (forall x :: !Gap(visible, x)) && (forall x :: x in KeptRows(visible) ==> HasRoot(visible, x))
  {
    if x :| Gap(visible, x) {
      GapSurfaces(visible, x);
    } else if forall x :: x in KeptRows(visible) ==> HasRoot(visible, x) {
      forall x ensures x in KeptRows(visible) <==> ChainVisible(visible, x) {
        if x in KeptRows(visible) {
          var n: nat :| AtLevel(visible, x, n);
          KeptWithoutGaps(visible, x, n);
        }
        if ChainVisible(visible, x) {
          ChainIsKept(visible, x);
        }
      }
    } else {
      var x :| x in KeptRows(visible) && !HasRoot(visible, x);
      forall n: nat ensures !Chain(visible, x, n) {
        if Chain(visible, x, n) {
          ChainIsLevel(visible, x, n);
        }
      }
    }
  }

  /** On a menu table of depth at most two a visible parent under a hidden one is the only way to differ. */
  lemma FilterIsChainWhenShallow(menus: map<Uuid, Menu>, visible: Rows)
    requires MenuDepth.MenusOk(menus) && forall m :: m in visible ==> m in menus && visible[m] == menus[m]
    ensures FilterIsChain(visible) <==> forall x :: !Gap(visible, x)
  {
    hide MenuDepth.MenusOk, FilterIsChain;
    FilterIsChainIff(visible);
    forall x | x in KeptRows(visible) ensures HasRoot(visible, x) {
      ShallowRowsHaveRoots(menus, visible, x);
    }
  }

  // ---- three accepted creates that make a gap ----

  function Item(w: Uuid, parent: Option<Uuid>, visibility: string): MenuVerbs.NewMenu {
    MenuVerbs.NewMenu(w, parent, "M", None, None, false, 10, visibility, [], false)
  }

  function ItemRow(w: Uuid, parent: Option<Uuid>, tier: Visibility): Menu {
    Menu(w, parent, "M", None, None, false, 10, tier, [], false, true)
  }

  lemma ItemCreated(t: Tables, w: Uuid, parent: Option<Uuid>, visibility: string, tier: Visibility, id: Uuid)
    requires w in t.websites && Pages.ParseVisibility(visibility) == Some(tier)
    requires parent.Some? ==> MenuVerbs.CheckParent(t.menus, parent.value).Ok?
    ensures MenuVerbs.CreateMenu(t, Item(w, parent, visibility), id) == (t.(menus := t.menus[id := ItemRow(w, parent, tier)]), Ok(id))
  {
    assert Text.Trim("M") == "M";
  }

  lemma ChildFits(menus: map<Uuid, Menu>, root: Uuid)
    requires root in menus && menus[root].parent.None?
    ensures MenuVerbs.CheckParent(menus, root).Ok?
  {
  }

  lemma GrandchildFits(menus: map<Uuid, Menu>, root: Uuid, child: Uuid)
    requires root in menus && menus[root].parent.None? && child in menus && menus[child].parent == Some(root)
    ensures MenuVerbs.CheckParent(menus, child).Ok?
  {
    assert MenuVerbs.Walk(menus, root, 1) == 1;
  }

  /**
   A connected root, a public child under it, a public grandchild under that: each create is
   accepted, and an anonymous visitor is served the grandchild as a root.
   */
  lemma GapHappens(t: Tables, w: Uuid, base: Uuid)
    requires w in t.websites
    ensures var (one, first) := MenuVerbs.CreateMenu(t, Item(w, None, "connected"), base);
      var (two, second) := MenuVerbs.CreateMenu(one, Item(w, Some(base), "public"), base + 1);
      var (three, third) := MenuVerbs.CreateMenu(two, Item(w, Some(base + 1), "public"), base + 2);
      && first == Ok(base) && second == Ok(base + 1) && third == Ok(base + 2)
      && Gap(VisibleRows(three, w, None), base + 2) && base + 2 in Roots(KeptRows(VisibleRows(three, w, None)))
  {
    hide MenuVerbs.CreateMenu, MenuVerbs.CheckParent, Gap, VisibleRows, KeptRows, Roots;
    var child, leaf := base + 1, base + 2;
    var one := MenuVerbs.CreateMenu(t, Item(w, None, "connected"), base).0;
    var two := MenuVerbs.CreateMenu(one, Item(w, Some(base), "public"), child).0;
    var three := MenuVerbs.CreateMenu(two, Item(w, Some(child), "public"), leaf).0;
    ItemCreated(t, w, None, "connected", Connected, base);
    ChildFits(one.menus, base);
    ItemCreated(one, w, Some(base), "public", Public, child);
    GrandchildFits(two.menus, base, child);
    ItemCreated(two, w, Some(child), "public", Public, leaf);
    hide Item;
    GapIn(three, w, base, child, leaf);
    GapSurfaces(VisibleRows(three, w, None), leaf);
  }

  lemma GapIn(t: Tables, w: Uuid, root: Uuid, child: Uuid, leaf: Uuid)
    requires root in t.menus && t.menus[root] == ItemRow(w, None, Connected)
    requires child in t.menus && t.menus[child] == ItemRow(w, Some(root), Public)
    requires leaf in t.menus && t.menus[leaf] == ItemRow(w, Some(child), Public)
    ensures Gap(VisibleRows(t, w, None), leaf)
  {
  }
}
