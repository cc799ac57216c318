/**
 What the local menu verbs store, when they refuse and how.
 */
module MenuWrites {
  import opened Common
  import opened Schema
  import opened Text
  import opened MenuVerbs

  /** n steps up from the row, over rows of the table, there is a row without a parent among them. */
  ghost predicate Rises(menus: Menus, id: Uuid, n: nat)
    decreases n
  {
    && id in menus
    && var up := menus[id].parent.Some? && menus[id].parent.value in menus;
       if n == 0 then !up else up && Rises(menus, menus[id].parent.value, n - 1)
  }

  /** A row can take children when it is a root or the child of one. */
  lemma ParentFitsIff(menus: Menus, parent: Uuid)
    ensures CheckParent(menus, parent).Ok? <==> Rises(menus, parent, 0) || Rises(menus, parent, 1)
    ensures CheckParent(menus, parent).Err? ==>
      CheckParent(menus, parent).error == if parent in menus then MenuDepthExceeded else MissingParent
  {
    if parent in menus && menus[parent].parent.Some? && menus[parent].parent.value in menus {
      var p := menus[parent].parent.value;
      if menus[p].parent.Some? && menus[p].parent.value in menus {
        WalkGrows(menus, menus[p].parent.value, 2);
      }
    }
  }

  lemma {:induction false} WalkGrows(menus: Menus, id: Uuid, d: nat)
    requires id in menus && d <= WALK_BOUND
    ensures Walk(menus, id, d) >= d
    decreases WALK_BOUND - d
  {
    if menus[id].parent.Some? && menus[id].parent.value in menus && d < WALK_BOUND {
      WalkGrows(menus, menus[id].parent.value, d + 1);
    }
  }

  /** When a create is accepted, and which refusal it gives otherwise; a refusal writes nothing. */
  lemma CreateAcceptedIff(t: Tables, input: NewMenu, newId: Uuid)
    ensures var (after, r) := CreateMenu(t, input, newId);
      && (r.Err? ==> after == t)
      && if Trim(input.name) == "" then r == Err(InvalidInput)
         else if input.parent.Some? && input.mega then r == Err(MegaMenuIsolated)
         else if input.parent.Some? && input.parent.value !in t.menus then r == Err(MissingParent)
         else if input.parent.Some? && !Rises(t.menus, input.parent.value, 0) && !Rises(t.menus, input.parent.value, 1)
         then r == Err(MenuDepthExceeded)
         else if input.visibility !in {"public", "connected", "restricted"} then r == Err(InvalidVisibility)
         else if input.website !in t.websites then r == Err(ForeignKey)
         else r == Ok(newId)
  {
    if input.parent.Some? {
      ParentFitsIff(t.menus, input.parent.value);
    }
    hide CheckParent, Trim, Rises;
  }

  /** What is stored: the input's columns, the name trimmed, in a live row; and no other row of any table. */
  lemma CreateStores(t: Tables, input: NewMenu, newId: Uuid)
    requires CreateMenu(t, input, newId).1.Ok?
    ensures var after := CreateMenu(t, input, newId).0;
      && newId in after.menus && after == t.(menus := t.menus[newId := after.menus[newId]])
      && var m := after.menus[newId];
         && m.live && m.website == input.website && m.parent == input.parent && m.name == Trim(input.name)
         && m.page == input.page && m.url == input.url && m.newWindow == input.newWindow && m.sequence == input.sequence
         && m.roles == input.roles && m.mega == input.mega && Tier(input.visibility, m.visibility)
  {
    hide CheckParent, Trim;
  }

  /** The tier a text names. */
  predicate Tier(text: string, tier: Visibility) {
    || (text == "public" && tier.Public?) || (text == "connected" && tier.Connected?) || (text == "restricted" && tier.Restricted?)
  }

  /** When a patch is accepted, and which refusal it gives otherwise; a refusal writes nothing. */
  lemma PatchAcceptedIff(t: Tables, id: Uuid, p: MenuPatch)
    ensures var (after, r) := PatchMenu(t, id, p);
      && (r.Err? ==> after == t)
      && if p == MenuPatch(None, None, None, None, None, None, None, None, None) then r == Err(InvalidInput)
         else if id !in t.menus || !t.menus[id].live then r == Err(NotFound)
         else
           var parent := if p.parent.Some? then p.parent.value else t.menus[id].parent;
           var mega := if p.mega.Some? then p.mega.value else t.menus[id].mega;
           if parent == Some(id) then r == Err(InvalidInput)
           else if parent.Some? && parent.value !in t.menus then r == Err(MissingParent)
           else if parent.Some? && !Rises(t.menus, parent.value, 0) && !Rises(t.menus, parent.value, 1) then r == Err(MenuDepthExceeded)
           else if mega && (parent.Some? || exists m :: m in t.menus && t.menus[m].live && t.menus[m].parent == Some(id))
           then r == Err(MegaMenuIsolated)
           else if p.visibility.Some? && p.visibility.value !in {"public", "connected", "restricted"} then r == Err(InvalidVisibility)
           else r == Ok(())
  {
    if id in t.menus {
      var parent := if p.parent.Some? then p.parent.value else t.menus[id].parent;
      if parent.Some? {
        ParentFitsIff(t.menus, parent.value);
      }
      if m :| m in t.menus && t.menus[m].live && t.menus[m].parent == Some(id) {
        assert m in LiveChildren(t.menus, id);
      }
    }
    hide CheckParent, Rises;
  }

  /** What a patch leaves: each column as the patch names it, and as it was where it names none. */
  lemma PatchStores(t: Tables, id: Uuid, p: MenuPatch)
    requires PatchMenu(t, id, p).1.Ok?
    ensures id in t.menus
    ensures var after := PatchMenu(t, id, p).0;
      && id in after.menus && after == t.(menus := t.menus[id := after.menus[id]])
      && var was, m := t.menus[id], after.menus[id];
         && m.live == was.live && m.website == was.website
         && m.parent == (if p.parent.Some? then p.parent.value else was.parent)
         && m.name == (if p.name.Some? then p.name.value else was.name)
         && m.page == (if p.page.Some? then p.page.value else was.page)
         && m.url == (if p.url.Some? then p.url.value else was.url)
         && m.newWindow == (if p.newWindow.Some? then p.newWindow.value else was.newWindow)
         && m.sequence == (if p.sequence.Some? then p.sequence.value else was.sequence)
         && m.roles == (if p.roles.Some? then p.roles.value else was.roles)
         && m.mega == (if p.mega.Some? then p.mega.value else was.mega)
         && (if p.visibility.Some? then Tier(p.visibility.value, m.visibility) else m.visibility == was.visibility)
  {
    hide CheckParent;
  }

  /** A delete takes one live row out, and no row below it; anything else is not found. */
  lemma DeleteTakesOneRow(t: Tables, id: Uuid, m: Uuid)
    ensures var (after, r) := DeleteMenu(t, id);
      && (r.Ok? <==> id in t.menus && t.menus[id].live) && (r.Err? ==> r == Err(NotFound) && after == t)
      && after.menus.Keys == t.menus.Keys && after == t.(menus := after.menus)
      && (m in t.menus ==> after.menus[m] == if r.Ok? && m == id then t.menus[m].(live := false) else t.menus[m])
  {
  }
}
