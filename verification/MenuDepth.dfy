/**
 Depth of the menu forest over whole runs: no cycles, no node deeper than two, a walk that measures
 true depth; and exactly which accepted moves keep it so.
 */
module MenuDepth {
  import opened Common
  import opened Schema
  import opened MenuVerbs

  // ---- true depth ----

  /** n steps up from the node there is a root. */
  ghost predicate AtDepth(menus: Menus, id: Uuid, n: nat)
    decreases n
  {
    && id in menus
    && if n == 0 then menus[id].parent.None? else menus[id].parent.Some? && AtDepth(menus, menus[id].parent.value, n - 1)
  }

  /** n steps up from x is y. */
  ghost predicate Above(menus: Menus, x: Uuid, y: Uuid, n: nat)
    decreases n
  {
    if n == 0 then x == y else x in menus && menus[x].parent.Some? && Above(menus, menus[x].parent.value, y, n - 1)
  }

  predicate IsRoot(menus: Menus, x: Uuid) {
    x in menus && menus[x].parent.None?
  }

  predicate UnderRoot(menus: Menus, x: Uuid) {
    x in menus && menus[x].parent.Some? && IsRoot(menus, menus[x].parent.value)
  }

  predicate Shallow(menus: Menus, x: Uuid) {
    IsRoot(menus, x) || UnderRoot(menus, x) || (x in menus && menus[x].parent.Some? && UnderRoot(menus, menus[x].parent.value))
  }

  /** Every node, dead or live, is a root, a child of a root, or a grandchild of one. */
  ghost predicate MenusOk(menus: Menus) {
    forall x :: x in menus ==> Shallow(menus, x)
  }

  /** The invariant in terms of depth: every node has one, it is at most two, and the bounded walk finds it. */
  lemma DepthIsTrue(menus: Menus, x: Uuid)
    requires x in menus
    ensures forall n: nat :: n <= MENU_MAX_DEPTH && AtDepth(menus, x, n) ==> Shallow(menus, x)
    ensures Shallow(menus, x) ==> DepthOf(menus, x).Some? && DepthOf(menus, x).value <= MENU_MAX_DEPTH
    ensures Shallow(menus, x) ==> AtDepth(menus, x, DepthOf(menus, x).value)
  {
  }

  /** A node with a depth is not above itself. */
  lemma {:induction false} DepthDrops(menus: Menus, x: Uuid, y: Uuid, d: nat, n: nat)
    requires AtDepth(menus, x, d) && Above(menus, x, y, n)
    ensures n <= d && AtDepth(menus, y, d - n)
    decreases n
  {
    if n > 0 {
      DepthDrops(menus, menus[x].parent.value, y, d - 1, n - 1);
    }
  }

  lemma {:induction false} DepthIsUnique(menus: Menus, x: Uuid, d: nat, e: nat)
    requires AtDepth(menus, x, d) && AtDepth(menus, x, e)
    ensures d == e
    decreases d
  {
    if d > 0 && e > 0 {
      DepthIsUnique(menus, menus[x].parent.value, d - 1, e - 1);
    }
  }

  lemma NoCycles(menus: Menus, x: Uuid, n: nat)
    requires MenusOk(menus) && x in menus && n > 0
    ensures !Above(menus, x, x, n)
  {
    DepthIsTrue(menus, x);
    var d := DepthOf(menus, x).value;
    if Above(menus, x, x, n) {
      DepthDrops(menus, x, x, d, n);
      DepthIsUnique(menus, x, d, d - n);
    }
  }

  // ---- rows that join, rows that move ----

  /** A node the parent check accepts sits under a root or under a root's child. */
  lemma CheckedParent(menus: Menus, p: Uuid)
    requires MenusOk(menus)
    ensures CheckParent(menus, p).Ok? <==> IsRoot(menus, p) || UnderRoot(menus, p)
  {
  }

  lemma AddedOk(menus: Menus, id: Uuid, m: Menu)
    requires MenusOk(menus) && id !in menus
    requires m.parent.Some? ==> IsRoot(menus, m.parent.value) || UnderRoot(menus, m.parent.value)
    ensures MenusOk(menus[id := m])
  {
  }

  /** Rows below the node, dead ones included. */
  predicate HasChild(menus: Menus, id: Uuid) {
    exists c :: c in menus && menus[c].parent == Some(id)
  }

  predicate HasGrandchild(menus: Menus, id: Uuid) {
    exists c :: c in menus && menus[c].parent == Some(id) && HasChild(menus, c)
  }

  /** What a caller can look up before moving a node: where it goes, and how deep its own rows go. */
  predicate Harmless(menus: Menus, id: Uuid, to: Option<Uuid>)
    requires id in menus
  {
    || to.None? || to == menus[id].parent || !HasChild(menus, id)
    || (IsRoot(menus, to.value) && !HasGrandchild(menus, id))
  }

  /** `id` moved under `to`, everything else where it was. */
  ghost predicate Moves(menus: Menus, after: Menus, id: Uuid, to: Option<Uuid>) {
    && id in menus && after.Keys == menus.Keys && after[id].parent == to
    && (forall x :: x in menus && x != id ==> after[x].parent == menus[x].parent)
  }

  lemma HarmlessMove(menus: Menus, after: Menus, id: Uuid, to: Option<Uuid>)
    requires MenusOk(menus) && Moves(menus, after, id, to) && to != Some(id)
    requires to.Some? ==> IsRoot(menus, to.value) || UnderRoot(menus, to.value)
    requires Harmless(menus, id, to)
    ensures MenusOk(after)
  {
    forall x | x in after ensures Shallow(after, x) {
      StillShallow(menus, after, id, to, x);
    }
  }

  lemma StillShallow(menus: Menus, after: Menus, id: Uuid, to: Option<Uuid>, x: Uuid)
    requires MenusOk(menus) && Moves(menus, after, id, to) && to != Some(id) && x in menus
    requires to.Some? ==> IsRoot(menus, to.value) || UnderRoot(menus, to.value)
    requires Harmless(menus, id, to)
    ensures Shallow(after, x)
  {
  }

  lemma HarmfulMove(menus: Menus, after: Menus, id: Uuid, to: Option<Uuid>)
    requires MenusOk(menus) && Moves(menus, after, id, to) && to != Some(id)
    requires to.Some? ==> IsRoot(menus, to.value) || UnderRoot(menus, to.value)
    requires !Harmless(menus, id, to)
    ensures !MenusOk(after)
  {
  }

  /** An accepted patch keeps the forest shallow and free of cycles exactly when its move is harmless. */
  lemma PatchKeepsDepthIff(t: Tables, id: Uuid, p: MenuPatch)
    requires MenusOk(t.menus) && PatchMenu(t, id, p).1.Ok?
    ensures id in t.menus && (MenusOk(PatchMenu(t, id, p).0.menus) <==> Harmless(t.menus, id, Or(p.parent, t.menus[id].parent)))
  {
    hide DepthOf, LiveChildren, MenusOk, Harmless;
    var to := Or(p.parent, t.menus[id].parent);
    var after := PatchMenu(t, id, p).0.menus;
    assert Moves(t.menus, after, id, to);
    if to.Some? {
      CheckedParent(t.menus, to.value);
    }
    if Harmless(t.menus, id, to) {
      HarmlessMove(t.menus, after, id, to);
    } else {
      HarmfulMove(t.menus, after, id, to);
    }
  }

  /** Moving a root under its own child is accepted, and makes a cycle. */
  lemma MoveUnderChildMakesACycle(t: Tables, a: Uuid, b: Uuid)
    requires MenusOk(t.menus) && IsRoot(t.menus, a) && t.menus[a].live && !t.menus[a].mega
    requires b in t.menus && t.menus[b].parent == Some(a)
    ensures var p := EMPTY_PATCH.(parent := Some(Some(b)));
      PatchMenu(t, a, p).1 == Ok(()) && Above(PatchMenu(t, a, p).0.menus, a, a, 2)
  {
  }

  // ---- the verbs ----

  lemma CreateKeepsDepth(t: Tables, input: NewMenu, newId: Uuid)
    requires MenusOk(t.menus) && newId !in t.menus
    ensures MenusOk(CreateMenu(t, input, newId).0.menus)
  {
    hide MenusOk, DepthOf;
    if CreateMenu(t, input, newId).1.Ok? {
      if input.parent.Some? {
        CheckedParent(t.menus, input.parent.value);
      }
      AddedOk(t.menus, newId, CreateMenu(t, input, newId).0.menus[newId]);
    }
  }

  lemma DeleteKeepsDepth(t: Tables, id: Uuid)
    requires MenusOk(t.menus)
    ensures MenusOk(DeleteMenu(t, id).0.menus)
  {
  }

  lemma CopyKeepsDepth(t: Tables, id: Uuid, source: Menu, w: Uuid, newId: Uuid)
    requires MenusOk(t.menus)
    ensures MenusOk(WithMenuCopy(t, id, source, w, newId).menus)
  {
  }

  lemma {:induction false} CopiesKeepDepth(t: Tables, id: Uuid, source: Menu, targets: seq<Uuid>, base: Uuid, n: nat)
    requires MenusOk(t.menus) && n <= |targets|
    ensures MenusOk(CopyMenus(t, id, source, targets, base, n).tables.menus)
  {
    hide MenusOk, WithMenuCopy;
    if n > 0 {
      CopiesKeepDepth(t, id, source, targets, base, n - 1);
      var c, w, newId := CopyMenus(t, id, source, targets, base, n - 1).tables, targets[n - 1], base + n - 1;
      CopyKeepsDepth(c, id, source, w, newId);
    }
  }

  lemma FanoutKeepsDepth(t: Tables, id: Uuid, base: Uuid)
    requires MenusOk(t.menus)
    ensures MenusOk(FanoutMenu(t, id, base).0.menus)
  {
    hide MenusOk, CopyMenus;
    if id in t.menus && t.menus[id].live {
      var targets := OtherWebsites(t, t.menus[id].website);
      CopiesKeepDepth(t, id, t.menus[id], targets, base, |targets|);
    }
  }

  // ---- whole runs ----

  datatype Event =
    | Creating(input: NewMenu, newId: Uuid)
    | Patching(patchId: Uuid, patch: MenuPatch)
    | Deleting(deleteId: Uuid)
    | Fanning(fanId: Uuid, base: Uuid)

  datatype Run = Begin | Then(before: Run, event: Event)

  function Next(t: Tables, e: Event): Tables {
    match e
    case Creating(input, newId) => CreateMenu(t, input, newId).0
    case Patching(id, p) => PatchMenu(t, id, p).0
    case Deleting(id) => DeleteMenu(t, id).0
    case Fanning(id, base) => FanoutMenu(t, id, base).0
  }

  function After(t: Tables, run: Run): Tables {
    match run
    case Begin => t
    case Then(before, e) => Next(After(t, before), e)
  }

  /** New rows draw new uuids. */
  ghost predicate DrawsNew(t: Tables, run: Run) {
    match run
    case Begin => true
    case Then(before, e) => DrawsNew(t, before) && (e.Creating? ==> e.newId !in After(t, before).menus)
  }

  /** The event is no accepted patch, or one that moves its node harmlessly. */
  predicate HarmlessEvent(t: Tables, e: Event) {
    e.Patching? && PatchMenu(t, e.patchId, e.patch).1.Ok? ==>
      e.patchId in t.menus && Harmless(t.menus, e.patchId, Or(e.patch.parent, t.menus[e.patchId].parent))
  }

  /** Every accepted patch of the run moves its node harmlessly. */
  predicate Careful(t: Tables, run: Run) {
    match run
    case Begin => true
    case Then(before, e) => Careful(t, before) && HarmlessEvent(After(t, before), e)
  }

  /** At every moment of the run. */
  ghost predicate AlwaysShallow(t: Tables, run: Run) {
    MenusOk(After(t, run).menus) && (run.Then? ==> AlwaysShallow(t, run.before))
  }

  lemma NextKeepsDepthIff(t: Tables, e: Event)
    requires MenusOk(t.menus) && (e.Creating? ==> e.newId !in t.menus)
    ensures MenusOk(Next(t, e).menus) <==> HarmlessEvent(t, e)
  {
    hide MenusOk, Harmless, CreateMenu, DeleteMenu, FanoutMenu, CheckPatch;
    match e
    case Creating(input, newId) => CreateKeepsDepth(t, input, newId);
    case Patching(id, p) =>
      if PatchMenu(t, id, p).1.Ok? {
        PatchKeepsDepthIff(t, id, p);
      }
    case Deleting(id) => DeleteKeepsDepth(t, id);
    case Fanning(id, base) => FanoutKeepsDepth(t, id, base);
  }

  /** Over any run from a shallow forest the forest is shallow at every moment if and only if every accepted patch was harmless. */
  lemma {:induction false} ShallowIffCareful(t: Tables, run: Run)
    requires MenusOk(t.menus) && DrawsNew(t, run)
    ensures AlwaysShallow(t, run) <==> Careful(t, run)
  {
    hide MenusOk, HarmlessEvent, Next;
    match run
    case Begin =>
    case Then(before, e) =>
      ShallowIffCareful(t, before);
      if AlwaysShallow(t, before) {
        assert MenusOk(After(t, before).menus);
        NextKeepsDepthIff(After(t, before), e);
      }
  }

  /** After any careful run from a shallow forest every node's depth is at most two, the walk returns it, and there is no cycle. */
  lemma DepthStaysTrue(t: Tables, run: Run, x: Uuid, n: nat)
    requires MenusOk(t.menus) && DrawsNew(t, run) && Careful(t, run) && x in After(t, run).menus && n > 0
    ensures var menus := After(t, run).menus;
      && DepthOf(menus, x).Some? && DepthOf(menus, x).value <= MENU_MAX_DEPTH
      && AtDepth(menus, x, DepthOf(menus, x).value) && !Above(menus, x, x, n)
  {
    ShallowIffCareful(t, run);
    var menus := After(t, run).menus;
    NoCycles(menus, x, n);
    DepthIsTrue(menus, x);
  }
}
