/**
 The menu verbs: create, patch, delete and fan-out, with the bounded walk that measures depth.
 */
module MenuVerbs {
  import opened Common
  import opened Schema
  import opened Specificity
  import opened Text
  import Pages

  const MENU_MAX_DEPTH := 2
  const WALK_BOUND := 16

  datatype MenuError = InvalidInput | MegaMenuIsolated | MenuDepthExceeded | NotFound | MissingParent | InvalidVisibility | ForeignKey

  type Menus = map<Uuid, Menu>

  // ---- depth ----

  /** The recursive query: up the parents, dead rows included, at most sixteen steps. */
  function Walk(menus: Menus, id: Uuid, d: nat): nat
    requires id in menus && d <= WALK_BOUND
    decreases WALK_BOUND - d
  {
    if menus[id].parent.Some? && menus[id].parent.value in menus && d < WALK_BOUND
    then Walk(menus, menus[id].parent.value, d + 1) else d
  }

  /** MAX over no rows is no number: the read of a missing node fails. */
  function DepthOf(menus: Menus, id: Uuid): Option<nat> {
    if id in menus then Some(Walk(menus, id, 0)) else None
  }

  // ---- create ----

  datatype NewMenu = NewMenu(website: Uuid, parent: Option<Uuid>, name: string, page: Option<Uuid>, url: Option<string>,
    newWindow: bool, sequence: int, visibility: string, roles: seq<string>, mega: bool)

  function MenuOf(input: NewMenu, visibility: Visibility): Menu {
    Menu(input.website, input.parent, Trim(input.name), input.page, input.url, input.newWindow, input.sequence, visibility,
         input.roles, input.mega, true)
  }

  /** Whether a node may sit under the parent, one level below it. */
  function CheckParent(menus: Menus, parent: Uuid): Result<(), MenuError> {
    match DepthOf(menus, parent)
    case None => Err(MissingParent)
    case Some(d) => if d + 1 > MENU_MAX_DEPTH then Err(MenuDepthExceeded) else Ok(())
  }

  function CreateMenu(t: Tables, input: NewMenu, newId: Uuid): (Tables, Result<Uuid, MenuError>) {
    if Trim(input.name) == "" then (t, Err(InvalidInput))
    else if input.parent.Some? && input.mega then (t, Err(MegaMenuIsolated))
    else if input.parent.Some? && CheckParent(t.menus, input.parent.value).Err?
    then (t, Err(CheckParent(t.menus, input.parent.value).error))
    else
      match Pages.ParseVisibility(input.visibility)
      case None => (t, Err(InvalidVisibility))
      case Some(v) =>
        if input.website !in t.websites then (t, Err(ForeignKey))
        else (t.(menus := t.menus[newId := MenuOf(input, v)]), Ok(newId))
  }

  // ---- patch ----

  datatype MenuPatch = MenuPatch(parent: Option<Option<Uuid>>, name: Option<string>, page: Option<Option<Uuid>>,
    url: Option<Option<string>>, newWindow: Option<bool>, sequence: Option<int>, visibility: Option<string>,
    roles: Option<seq<string>>, mega: Option<bool>)

  const EMPTY_PATCH := MenuPatch(None, None, None, None, None, None, None, None, None)

  function Or<T>(patched: Option<T>, current: T): T {
    match patched
    case Some(v) => v
    case None => current
  }

  function LiveChildren(menus: Menus, id: Uuid): set<Uuid> {
    set m | m in menus && menus[m].live && menus[m].parent == Some(id)
  }

  function Patched(m: Menu, p: MenuPatch, visibility: Visibility): Menu {
    Menu(m.website, Or(p.parent, m.parent), Or(p.name, m.name), Or(p.page, m.page), Or(p.url, m.url), Or(p.newWindow, m.newWindow),
         Or(p.sequence, m.sequence), visibility, Or(p.roles, m.roles), Or(p.mega, m.mega), m.live)
  }

  /** The checks of the patch, in the order they are made. */
  function CheckPatch(menus: Menus, id: Uuid, p: MenuPatch): Result<(), MenuError> {
    if p == EMPTY_PATCH then Err(InvalidInput)
    else if id !in menus || !menus[id].live then Err(NotFound)
    else
      var parent := Or(p.parent, menus[id].parent);
      if parent == Some(id) then Err(InvalidInput)
      else if parent.Some? && CheckParent(menus, parent.value).Err? then CheckParent(menus, parent.value)
      else if Or(p.mega, menus[id].mega) && (parent.Some? || LiveChildren(menus, id) != {}) then Err(MegaMenuIsolated)
      else Ok(())
  }

  function PatchMenu(t: Tables, id: Uuid, p: MenuPatch): (Tables, Result<(), MenuError>) {
    if CheckPatch(t.menus, id, p).Err? then (t, CheckPatch(t.menus, id, p))
    else
      match if p.visibility.Some? then Pages.ParseVisibility(p.visibility.value) else Some(t.menus[id].visibility)
      case None => (t, Err(InvalidVisibility))
      case Some(v) => (t.(menus := t.menus[id := Patched(t.menus[id], p, v)]), Ok(()))
  }

  // ---- delete ----

  function DeleteMenu(t: Tables, id: Uuid): (Tables, Result<(), MenuError>) {
    if id !in t.menus || !t.menus[id].live then (t, Err(NotFound))
    else (t.(menus := t.menus[id := t.menus[id].(live := false)]), Ok(()))
  }

  // ---- fan-out ----

  function RootsOf(menus: Menus, w: Uuid): set<Uuid> {
    set m | m in menus && menus[m].website == w && menus[m].parent.None? && menus[m].live
  }

  /** Row m comes no later than row n by (sequence, id). */
  predicate NotAfter(menus: Menus, m: Uuid, n: Uuid)
    requires m in menus && n in menus
  {
    menus[m].sequence < menus[n].sequence || (menus[m].sequence == menus[n].sequence && m <= n)
  }

  ghost predicate IsFirstOf(menus: Menus, ids: set<Uuid>, x: Uuid)
    requires ids <= menus.Keys
  {
    x in ids && forall m :: m in ids ==> NotAfter(menus, x, m)
  }

  lemma FirstExists(menus: Menus, ids: set<Uuid>) returns (x: Uuid)
    requires ids <= menus.Keys && ids != {}
    ensures IsFirstOf(menus, ids, x)
  {
    x :| x in ids;
    var rest := ids - {x};
    if rest != {} {
      var y := FirstExists(menus, rest);
      assert forall m :: m in ids ==> m == x || m in rest;
      x := if NotAfter(menus, x, y) then x else y;
    } else {
      assert ids == {x};
    }
  }

  /** ORDER BY sequence, id LIMIT 1. */
  function FirstBySequence(menus: Menus, ids: set<Uuid>): (x: Uuid)
    requires ids <= menus.Keys && ids != {}
    ensures IsFirstOf(menus, ids, x)
  {
    assert exists x :: IsFirstOf(menus, ids, x) by { var x := FirstExists(menus, ids); }
    var x :| x in ids && forall m :: m in ids ==> NotAfter(menus, x, m);
    x
  }

  function TargetRoot(menus: Menus, w: Uuid): Option<Uuid> {
    if RootsOf(menus, w) == {} then None else Some(FirstBySequence(menus, RootsOf(menus, w)))
  }

  /** The target's effective page for the key of the source's page. */
  function ReboundPage(t: Tables, source: Menu, w: Uuid): Option<Uuid> {
    if source.page.None? || source.page.value !in t.pages then None
    else
      var r := ResolveSpecific(t, t.pages[source.page.value].key, w);
      if r.NoRow? then None else Some(r.id)
  }

  /** The copy of the menu on another website: under its root, or a root itself. */
  function CopyFor(t: Tables, source: Menu, w: Uuid): Menu {
    source.(website := w, parent := if source.mega then None else TargetRoot(t.menus, w), page := ReboundPage(t, source, w), live := true)
  }

  function MenuBlocksOf(t: Tables, id: Uuid): multiset<Block> {
    if id in t.menuBlocks then t.menuBlocks[id] else multiset{}
  }

  function WithMenuCopy(t: Tables, id: Uuid, source: Menu, w: Uuid, newId: Uuid): Tables {
    if newId in t.menus then t
    else t.(menus := t.menus[newId := CopyFor(t, source, w)],
            menuBlocks := t.menuBlocks[newId := MenuBlocksOf(t, newId) + MenuBlocksOf(t, id)])
  }

  function OtherWebsites(t: Tables, w: Uuid): seq<Uuid> {
    OrderById(set v | v in t.websites && t.websites[v].live && v != w)
  }

  datatype MenuCopies = MenuCopies(tables: Tables, created: seq<Uuid>)

  function CopyMenus(t: Tables, id: Uuid, source: Menu, targets: seq<Uuid>, base: Uuid, n: nat): MenuCopies
    requires n <= |targets|
  {
    if n == 0 then MenuCopies(t, [])
    else
      var done := CopyMenus(t, id, source, targets, base, n - 1);
      MenuCopies(WithMenuCopy(done.tables, id, source, targets[n - 1], base + n - 1),
                 if base + n - 1 in done.tables.menus then done.created else done.created + [base + n - 1])
  }

  function FanoutMenu(t: Tables, id: Uuid, base: Uuid): (Tables, Result<seq<Uuid>, MenuError>) {
    if id !in t.menus || !t.menus[id].live then (t, Err(NotFound))
    else
      var targets := OtherWebsites(t, t.menus[id].website);
      var copies := CopyMenus(t, id, t.menus[id], targets, base, |targets|);
      (copies.tables, Ok(copies.created))
  }

  // ---- the transactions ----

  method Create(d: Database, input: NewMenu) returns (r: Result<Uuid, MenuError>)
    requires d.Valid()
    modifies d`menus, d`nextId
    ensures (d.Snapshot(), r) == CreateMenu(old(d.Snapshot()), input, old(d.nextId))
  {
    if Trim(input.name) == "" {
      return Err(InvalidInput);
    }
    if input.parent.Some? {
      if input.mega {
        return Err(MegaMenuIsolated);
      }
      var depth := DepthOf(d.menus, input.parent.value);
      if depth.None? {
        return Err(MissingParent);
      }
      if depth.value + 1 > MENU_MAX_DEPTH {
        return Err(MenuDepthExceeded);
      }
    }
    var newId := d.NewId();
    var visibility := Pages.ParseVisibility(input.visibility);
    if visibility.None? {
      return Err(InvalidVisibility);
    }
    if input.website !in d.websites {
      return Err(ForeignKey);
    }
    d.menus := d.menus[newId := MenuOf(input, visibility.value)];
    return Ok(newId);
  }

  method Validate(d: Database, id: Uuid, p: MenuPatch) returns (r: Result<(), MenuError>)
    ensures r == CheckPatch(d.menus, id, p)
  {
    if p == EMPTY_PATCH {
      return Err(InvalidInput);
    }
    if id !in d.menus || !d.menus[id].live {
      return Err(NotFound);
    }
    var current := d.menus[id];
    var willMega, willParent := Or(p.mega, current.mega), Or(p.parent, current.parent);
    if willParent.Some? {
      if willParent.value == id {
        return Err(InvalidInput);
      }
      var depth := DepthOf(d.menus, willParent.value);
      if depth.None? {
        return Err(MissingParent);
      }
      if depth.value + 1 > MENU_MAX_DEPTH {
        return Err(MenuDepthExceeded);
      }
    }
    if willMega {
      if willParent.Some? || LiveChildren(d.menus, id) != {} {
        return Err(MegaMenuIsolated);
      }
    }
    return Ok(());
  }

  method SetArms(current: Menu, p: MenuPatch) returns (row: Menu)
    ensures row == Patched(current, p, current.visibility)
  {
    hide Or;
    row := current;
    row := row.(parent := Or(p.parent, row.parent));
    row := row.(name := Or(p.name, row.name));
    row := row.(page := Or(p.page, row.page));
    row := row.(url := Or(p.url, row.url));
    row := row.(newWindow := Or(p.newWindow, row.newWindow));
    row := row.(sequence := Or(p.sequence, row.sequence));
    row := row.(roles := Or(p.roles, row.roles));
    row := row.(mega := Or(p.mega, row.mega));
  }

  method Patch(d: Database, id: Uuid, p: MenuPatch) returns (r: Result<(), MenuError>)
    modifies d`menus
    ensures (d.Snapshot(), r) == PatchMenu(old(d.Snapshot()), id, p)
  {
    hide DepthOf, LiveChildren;
    var checked := Validate(d, id, p);
    if checked.Err? {
      return checked;
    }
    var row := SetArms(d.menus[id], p);
    if p.visibility.Some? {
      var visibility := Pages.ParseVisibility(p.visibility.value);
      if visibility.None? {
        return Err(InvalidVisibility);
      }
      row := row.(visibility := visibility.value);
    }
    d.menus := d.menus[id := row];
    return Ok(());
  }

  method Delete(d: Database, id: Uuid) returns (r: Result<(), MenuError>)
    modifies d`menus
    ensures (d.Snapshot(), r) == DeleteMenu(old(d.Snapshot()), id)
  {
    if id !in d.menus || !d.menus[id].live {
      return Err(NotFound);
    }
    d.menus := d.menus[id := d.menus[id].(live := false)];
    return Ok(());
  }

  method CopyTo(d: Database, id: Uuid, source: Menu, w: Uuid) returns (newId: Uuid, inserted: bool)
    modifies d`menus, d`menuBlocks, d`nextId
    ensures newId == old(d.nextId) && d.nextId == newId + 1 && inserted == (newId !in old(d.menus))
    ensures d.Snapshot() == WithMenuCopy(old(d.Snapshot()), id, source, w, newId)
  {
    hide CopyFor;
    newId := d.nextId;
    d.nextId := newId + 1;
    var row := CopyFor(d.Snapshot(), source, w);
    inserted := newId !in d.menus;
    if inserted {
      var blocks := MenuBlocksOf(d.Snapshot(), newId) + MenuBlocksOf(d.Snapshot(), id);
      d.menus := d.menus[newId := row];
      d.menuBlocks := d.menuBlocks[newId := blocks];
    }
  }

  method CopyToAll(d: Database, id: Uuid, source: Menu, targets: seq<Uuid>) returns (created: seq<Uuid>)
    modifies d`menus, d`menuBlocks, d`nextId
    ensures MenuCopies(d.Snapshot(), created) == CopyMenus(old(d.Snapshot()), id, source, targets, old(d.nextId), |targets|)
  {
    hide WithMenuCopy;
    ghost var t, base := d.Snapshot(), d.nextId;
    created := [];
    for i := 0 to |targets|
      invariant d.nextId == base + i
      invariant MenuCopies(d.Snapshot(), created) == CopyMenus(t, id, source, targets, base, i)
    {
      var newId, inserted := CopyTo(d, id, source, targets[i]);
      if inserted {
        created := created + [newId];
      }
    }
  }

  method Fanout(d: Database, id: Uuid) returns (r: Result<seq<Uuid>, MenuError>)
    modifies d`menus, d`menuBlocks, d`nextId
    ensures (d.Snapshot(), r) == FanoutMenu(old(d.Snapshot()), id, old(d.nextId))
  {
    hide CopyMenus, OtherWebsites;
    if id !in d.menus || !d.menus[id].live {
      return Err(NotFound);
    }
    var source := d.menus[id];
    var created := CopyToAll(d, id, source, OtherWebsites(d.Snapshot(), source.website));
    return Ok(created);
  }
}
