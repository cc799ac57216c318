/**
 Mega-menu isolation: no live row stands under a mega menu, and no live mega menu under anything. The
 verbs look at the row they write but not at the row above it, which decides when they keep it.
 */
module MegaMenus {
  import opened Common
  import opened Schema
  import opened MenuVerbs
  import opened MenuDepth
  import MenuFanout
  import Text

  predicate StandsAlone(menus: Menus, x: Uuid)
    requires x in menus
  {
    var row := menus[x];
    row.parent.Some? ==> !row.mega && row.parent.value in menus && !menus[row.parent.value].mega
  }

  ghost predicate Isolated(menus: Menus) {
    forall x :: x in menus && menus[x].live ==> StandsAlone(menus, x)
  }

  /** Where a row of the verb would stand: nowhere, or under a row that is no mega menu. */
  predicate ParentIsPlain(menus: Menus, parent: Option<Uuid>) {
    parent.Some? ==> parent.value in menus && !menus[parent.value].mega
  }

  // ---- the verbs ----

  lemma CheckedIsThere(menus: Menus, parent: Uuid)
    requires CheckParent(menus, parent).Ok?
    ensures parent in menus
  {
  }

  /** An accepted create keeps the isolation exactly when its parent is no mega menu. */
  lemma CreateIsolatesIff(t: Tables, input: NewMenu, newId: Uuid)
    requires Isolated(t.menus) && Fresh(t, newId) && CreateMenu(t, input, newId).1.Ok?
    ensures Isolated(CreateMenu(t, input, newId).0.menus) <==> ParentIsPlain(t.menus, input.parent)
  {
    if input.parent.Some? {
      CheckedIsThere(t.menus, input.parent.value);
    }
    hide CheckParent, Fresh;
    assert newId !in t.menus by { Unused(t, newId); }
    var after := CreateMenu(t, input, newId).0.menus;
    assert StandsAlone(after, newId) <==> ParentIsPlain(t.menus, input.parent);
    forall x | x in t.menus && t.menus[x].live ensures StandsAlone(after, x) {
      assert StandsAlone(t.menus, x);
    }
  }

  lemma Unused(t: Tables, newId: Uuid)
    requires Fresh(t, newId)
    ensures newId !in t.menus
  {
  }

  /** An accepted patch keeps it exactly when the parent it leaves the row with is no mega menu. */
  lemma PatchIsolatesIff(t: Tables, id: Uuid, p: MenuPatch)
    requires Isolated(t.menus) && PatchMenu(t, id, p).1.Ok?
    ensures id in t.menus
    ensures Isolated(PatchMenu(t, id, p).0.menus) <==> ParentIsPlain(t.menus, Or(p.parent, t.menus[id].parent))
  {
    var parent := Or(p.parent, t.menus[id].parent);
    if parent.Some? {
      CheckedIsThere(t.menus, parent.value);
    }
    hide CheckParent;
    var after := PatchMenu(t, id, p).0.menus;
    assert StandsAlone(after, id) <==> ParentIsPlain(t.menus, parent);
    forall x | x in t.menus && t.menus[x].live && x != id ensures StandsAlone(after, x) {
      assert StandsAlone(t.menus, x);
      assert t.menus[x].parent == Some(id) ==> x in LiveChildren(t.menus, id);
    }
  }

  lemma DeleteIsolates(t: Tables, id: Uuid)
    requires Isolated(t.menus)
    ensures Isolated(DeleteMenu(t, id).0.menus)
  {
    var after := DeleteMenu(t, id).0.menus;
    forall x | x in after && after[x].live ensures StandsAlone(after, x) {
      assert StandsAlone(t.menus, x);
    }
  }

  lemma CopyStands(t: Tables, after: Menus, source: Menu, w: Uuid, newId: Uuid)
    requires newId in after && after[newId] == CopyFor(t, source, w)
    requires forall x :: x in t.menus ==> x in after && after[x] == t.menus[x]
    ensures after[newId].live && (StandsAlone(after, newId) <==> source.mega || ParentIsPlain(t.menus, TargetRoot(t.menus, w)))
  {
    var root := TargetRoot(t.menus, w);
    assert root.Some? ==> root.value in RootsOf(t.menus, w);
  }

  lemma OldRowsStand(menus: Menus, after: Menus)
    requires Isolated(menus) && forall x :: x in menus ==> x in after && after[x] == menus[x]
    ensures forall x :: x in menus && menus[x].live ==> StandsAlone(after, x)
  {
    forall x | x in menus && menus[x].live ensures StandsAlone(after, x) {
      assert StandsAlone(menus, x);
    }
  }

  /** No other live website's root is a mega menu. */
  ghost predicate RootsArePlain(t: Tables, w: Uuid) {
    forall v :: v in t.websites && t.websites[v].live && v != w ==> ParentIsPlain(t.menus, TargetRoot(t.menus, v))
  }

  /** The rows of a fan-out: the old ones, and one live copy per target. */
  ghost predicate Fanned(t: Tables, after: Menus, source: Menu, targets: seq<Uuid>, base: Uuid) {
    && (forall x :: x in t.menus ==> x in after && after[x] == t.menus[x])
    && (forall x :: x in after && x !in t.menus ==> base <= x < base + |targets|)
    && (forall i :: 0 <= i < |targets| ==> base + i in after && after[base + i] == CopyFor(t, source, targets[i]))
  }

  lemma FanoutRows(t: Tables, id: Uuid, base: Uuid)
    requires Fresh(t, base) && id in t.menus && t.menus[id].live
    ensures Fanned(t, FanoutMenu(t, id, base).0.menus, t.menus[id], OtherWebsites(t, t.menus[id].website), base)
  {
    MenuFanout.FanoutMenuIs(t, id, base, 0);
    MenusBelow(t, base);
    hide CopyFor, FanoutMenu, OtherWebsites, Fresh, MenuFanout.Copies, MenuFanout.Given, Fanned;
    var source, targets := t.menus[id], OtherWebsites(t, t.menus[id].website);
    var copies := MenuFanout.Copies(t, source, MenuFanout.Given(targets, base, |targets|));
    CopiesAre(t, source, targets, base);
    CopiesJoin(t, copies, source, targets, base);
  }

  lemma CopiesAre(t: Tables, source: Menu, targets: seq<Uuid>, base: Uuid)
    ensures var copies := MenuFanout.Copies(t, source, MenuFanout.Given(targets, base, |targets|));
      && (forall x :: x in copies <==> base <= x < base + |targets|)
      && (forall i :: 0 <= i < |targets| ==> copies[base + i] == CopyFor(t, source, targets[i]))
  {
    hide CopyFor;
    var given := MenuFanout.Given(targets, base, |targets|);
    var copies := MenuFanout.Copies(t, source, given);
    forall x ensures x in copies <==> base <= x < base + |targets| {
      assert x in copies <==> x in given;
    }
    forall i | 0 <= i < |targets| ensures copies[base + i] == CopyFor(t, source, targets[i]) {
      assert base + i in given && given[base + i] == targets[base + i - base];
    }
  }

  lemma CopiesJoin(t: Tables, copies: Menus, source: Menu, targets: seq<Uuid>, base: Uuid)
    requires forall x :: x in t.menus ==> x < base
    requires forall x :: x in copies <==> base <= x < base + |targets|
    requires forall i :: 0 <= i < |targets| ==> copies[base + i] == CopyFor(t, source, targets[i])
    ensures Fanned(t, t.menus + copies, source, targets, base)
  {
    hide CopyFor;
  }

  lemma MenusBelow(t: Tables, base: Uuid)
    requires Fresh(t, base)
    ensures forall x :: x in t.menus ==> x < base
  {
  }

  lemma FannedIsolatesIff(t: Tables, after: Menus, source: Menu, targets: seq<Uuid>, base: Uuid)
    requires Isolated(t.menus) && Fanned(t, after, source, targets, base)
    ensures Isolated(after) <==> source.mega || forall v :: v in targets ==> ParentIsPlain(t.menus, TargetRoot(t.menus, v))
  {
    hide TargetRoot, ParentIsPlain, StandsAlone;
    OldRowsStand(t.menus, after);
    forall i | 0 <= i < |targets|
      ensures base + i in after && after[base + i].live
      ensures StandsAlone(after, base + i) <==> source.mega || ParentIsPlain(t.menus, TargetRoot(t.menus, targets[i]))
    {
      CopyStands(t, after, source, targets[i], base + i);
    }
    forall v | v in targets && Isolated(after) ensures source.mega || ParentIsPlain(t.menus, TargetRoot(t.menus, v)) {
      var i :| 0 <= i < |targets| && targets[i] == v;
      assert StandsAlone(after, base + i);
    }
    if source.mega || forall v :: v in targets ==> ParentIsPlain(t.menus, TargetRoot(t.menus, v)) {
      forall x | x in after && after[x].live && x !in t.menus ensures StandsAlone(after, x) {
        var i := x - base;
        assert x == base + i && targets[i] in targets;
      }
    }
  }

  /** A fan-out keeps it exactly when the menu is a mega menu itself, or no target root is one. */
  lemma FanoutIsolatesIff(t: Tables, id: Uuid, base: Uuid)
    requires Isolated(t.menus) && Fresh(t, base) && id in t.menus && t.menus[id].live
    ensures Isolated(FanoutMenu(t, id, base).0.menus) <==> t.menus[id].mega || RootsArePlain(t, t.menus[id].website)
  {
    hide FanoutMenu, Fresh, TargetRoot, Isolated, ParentIsPlain, Fanned;
    var source := t.menus[id];
    var targets := OtherWebsites(t, source.website);
    assert forall v :: v in targets <==> v in t.websites && t.websites[v].live && v != source.website;
    hide OtherWebsites;
    FanoutRows(t, id, base);
    FannedIsolatesIff(t, FanoutMenu(t, id, base).0.menus, source, targets, base);
  }

  // ---- whole runs ----

  /** New rows draw unused ids. */
  ghost predicate Drawn(t: Tables, run: Run) {
    match run
    case Begin => true
    case Then(before, e) =>
      var s := After(t, before);
      Drawn(t, before) && (e.Creating? ==> Fresh(s, e.newId)) && (e.Fanning? ==> Fresh(s, e.base))
  }

  /** The event puts no row under a mega menu. */
  ghost predicate Respects(t: Tables, e: Event) {
    match e
    case Creating(input, newId) => CreateMenu(t, input, newId).1.Ok? ==> ParentIsPlain(t.menus, input.parent)
    case Patching(id, p) => PatchMenu(t, id, p).1.Ok? ==> id in t.menus && ParentIsPlain(t.menus, Or(p.parent, t.menus[id].parent))
    case Deleting(_) => true
    case Fanning(id, _) => id in t.menus && t.menus[id].live ==> t.menus[id].mega || RootsArePlain(t, t.menus[id].website)
  }

  ghost predicate AlwaysRespects(t: Tables, run: Run) {
    run.Then? ==> AlwaysRespects(t, run.before) && Respects(After(t, run.before), run.event)
  }

  ghost predicate AlwaysIsolated(t: Tables, run: Run) {
    Isolated(After(t, run).menus) && (run.Then? ==> AlwaysIsolated(t, run.before))
  }

  lemma NextIsolatesIff(t: Tables, e: Event)
    requires Isolated(t.menus) && (e.Creating? ==> Fresh(t, e.newId)) && (e.Fanning? ==> Fresh(t, e.base))
    ensures Isolated(Next(t, e).menus) <==> Respects(t, e)
  {
    hide Isolated, CreateMenu, PatchMenu, FanoutMenu, DeleteMenu, ParentIsPlain, RootsArePlain, Fresh;
    match e
    case Creating(input, newId) => CreateOrRefuse(t, input, newId);
    case Patching(id, p) => PatchOrRefuse(t, id, p);
    case Deleting(id) => DeleteIsolates(t, id);
    case Fanning(id, base) =>
      if id in t.menus && t.menus[id].live {
        FanoutIsolatesIff(t, id, base);
      } else {
        FanoutRefuses(t, id, base);
      }
  }

  lemma FanoutRefuses(t: Tables, id: Uuid, base: Uuid)
    requires id !in t.menus || !t.menus[id].live
    ensures FanoutMenu(t, id, base).0 == t
  {
  }

  lemma CreateOrRefuse(t: Tables, input: NewMenu, newId: Uuid)
    requires Isolated(t.menus) && Fresh(t, newId)
    ensures Isolated(CreateMenu(t, input, newId).0.menus)
      <==> (CreateMenu(t, input, newId).1.Ok? ==> ParentIsPlain(t.menus, input.parent))
  {
    hide Isolated, ParentIsPlain, Fresh, CheckParent;
    if CreateMenu(t, input, newId).1.Ok? {
      CreateIsolatesIff(t, input, newId);
    }
  }

  lemma PatchOrRefuse(t: Tables, id: Uuid, p: MenuPatch)
    requires Isolated(t.menus)
    ensures Isolated(PatchMenu(t, id, p).0.menus)
      <==> (PatchMenu(t, id, p).1.Ok? ==> id in t.menus && ParentIsPlain(t.menus, Or(p.parent, t.menus[id].parent)))
  {
    hide Isolated, ParentIsPlain, CheckPatch;
    if PatchMenu(t, id, p).1.Ok? {
      PatchIsolatesIff(t, id, p);
    }
  }

  /** Over any run mega menus stay alone at every moment if and only if no event ever put a row under one. */
  lemma {:induction false} IsolationIff(t: Tables, run: Run)
    requires Isolated(t.menus) && Drawn(t, run)
    ensures AlwaysIsolated(t, run) <==> AlwaysRespects(t, run)
  {
    hide Isolated, Respects, Fresh, Next;
    match run
    case Begin =>
    case Then(before, e) =>
      IsolationIff(t, before);
      if AlwaysIsolated(t, before) {
        assert Isolated(After(t, before).menus);
        NextIsolatesIff(After(t, before), e);
      }
  }

  /** The verbs do not prevent it: a child under a mega menu is accepted. */
  lemma ChildOfAMegaMenu(t: Tables, w: Uuid, mega: Uuid, newId: Uuid)
    requires Isolated(t.menus) && Fresh(t, newId) && w in t.websites
    requires mega in t.menus && t.menus[mega].mega && t.menus[mega].live
    ensures var input := NewMenu(w, Some(mega), "M", None, None, false, 10, "public", [], false);
      CreateMenu(t, input, newId).1 == Ok(newId) && !Isolated(CreateMenu(t, input, newId).0.menus)
  {
    var input := NewMenu(w, Some(mega), "M", None, None, false, 10, "public", [], false);
    assert StandsAlone(t.menus, mega);
    assert Text.Trim("M") == "M";
    CreateIsolatesIff(t, input, newId);
  }
}
