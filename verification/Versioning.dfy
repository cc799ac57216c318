/**
 Copy-on-write and copy-on-unlink: forking a generic page into a website's own copy, and
 deleting a generic after every website has received its copy.
 */
module Versioning {
  import opened Common
  import opened Schema
  import opened Specificity

  datatype VersionError = ForkSourceMissing | Internal | ForeignKey

  datatype ForkOutcome = Created(id: Uuid) | Existing(id: Uuid)

  datatype Fanout = Fanout(generic: Uuid, created: seq<Uuid>, touched: seq<Uuid>)

  /** The row the INSERT..SELECT builds from the generic's content columns. */
  function SpecificCopy(p: Page, generic: Uuid, w: Uuid): Page {
    Page(p.key, Some(w), p.content, Some(generic), true)
  }

  /** Whether the INSERT..SELECT .. ON CONFLICT DO NOTHING lands its row. */
  predicate CopyLands(t: Tables, generic: Uuid, w: Uuid, newId: Uuid) {
    LivePage(t, generic) && !Conflicts(t, newId, SpecificCopy(t.pages[generic], generic, w))
  }

  /** The landed row and its block copies. */
  function WithCopy(t: Tables, generic: Uuid, w: Uuid, newId: Uuid): Tables
    requires generic in t.pages
  {
    t.(pages := t.pages[newId := SpecificCopy(t.pages[generic], generic, w)],
       blocks := t.blocks[newId := BlocksOf(t, newId) + BlocksOf(t, generic)])
  }

  /** UPDATE menus SET page_id = to WHERE website_id = w AND page_id = from, live rows. */
  function Repointed(menus: map<Uuid, Menu>, w: Uuid, from: Uuid, to: Uuid): map<Uuid, Menu> {
    map m | m in menus ::
      if menus[m].website == w && menus[m].page == Some(from) && menus[m].live
      then menus[m].(page := Some(to)) else menus[m]
  }

  /** One fork, run alone: the tables it commits and its answer. An error commits nothing. */
  function Fork(t: Tables, key: string, w: Uuid, newId: Uuid): (Tables, Result<ForkOutcome, VersionError>) {
    var own := ResolveSpecificEntity(t, key, w);
    var source := ResolveGeneric(t, key);
    if own.Some? then (t, Ok(Existing(own.value)))
    else if source.None? then (t, Err(ForkSourceMissing))
    else if !CopyLands(t, source.value, w, newId) then (t, Err(Internal))
    else if w !in t.websites then (t, Err(ForeignKey))
    else
      var copied := WithCopy(t, source.value, w, newId);
      (copied.(menus := Repointed(copied.menus, w, source.value, newId)), Ok(Created(newId)))
  }

  /** The live websites without a live specific for the key, in id order. */
  function FanoutTargets(t: Tables, key: string): seq<Uuid> {
    OrderById(set w | w in t.websites && t.websites[w].live && KeySlot(t, key, Some(w)).None?)
  }

  /** UPDATE menus FROM pages: every menu bound to the generic moves to its website's specific. */
  function RepointedToSpecifics(t: Tables, key: string, generic: Uuid): map<Uuid, Menu> {
    map m | m in t.menus ::
      if t.menus[m].page == Some(generic) && t.menus[m].live && KeySlot(t, key, Some(t.menus[m].website)).Some?
      then t.menus[m].(page := KeySlot(t, key, Some(t.menus[m].website)))
      else t.menus[m]
  }

  datatype Copied = Copied(tables: Tables, created: seq<Uuid>, touched: seq<Uuid>)

  /** One round of the fanout's inserts. */
  function CopyNext(done: Copied, generic: Uuid, w: Uuid, newId: Uuid): Copied {
    if CopyLands(done.tables, generic, w, newId)
    then Copied(WithCopy(done.tables, generic, w, newId), done.created + [newId], done.touched + [w])
    else done
  }

  /** The fanout's inserts for the first n websites, the i-th drawing the id base + i. */
  function CopyAll(t: Tables, generic: Uuid, targets: seq<Uuid>, base: Uuid, n: nat): Copied
    requires n <= |targets|
  {
    if n == 0 then Copied(t, [], [])
    else CopyNext(CopyAll(t, generic, targets, base, n - 1), generic, targets[n - 1], base + n - 1)
  }

  function SoftDeleted(pages: map<Uuid, Page>, id: Uuid): map<Uuid, Page> {
    map p | p in pages :: if p == id then pages[p].(live := false) else pages[p]
  }

  /** The whole fanout, run alone. An error commits nothing. */
  function DeleteWithFanout(t: Tables, key: string, base: Uuid): (Tables, Result<Fanout, VersionError>) {
    var source := ResolveGeneric(t, key);
    if source.None? then (t, Err(ForkSourceMissing))
    else
      var copied := CopyAll(t, source.value, FanoutTargets(t, key), base, |FanoutTargets(t, key)|);
      var c := copied.tables;
      (c.(menus := RepointedToSpecifics(c, key, source.value), pages := SoftDeleted(c.pages, source.value)),
       Ok(Fanout(source.value, copied.created, copied.touched)))
  }

  /** A landed copy is the one new row of its (key, website) slot. */
  lemma CopyTakesSlot(t: Tables, generic: Uuid, w: Uuid, newId: Uuid)
    requires CopyLands(t, generic, w, newId)
    ensures KeyIds(WithCopy(t, generic, w, newId), t.pages[generic].key, Some(w)) == {newId}
  {
  }

  // ---- the transactions ----

  method InsertSpecificCopy(d: Database, generic: Uuid, w: Uuid, newId: Uuid) returns (r: Result<bool, VersionError>)
    modifies d`pages, d`blocks
    ensures var t := old(d.Snapshot());
      if !CopyLands(t, generic, w, newId) then r == Ok(false) && d.Snapshot() == t
      else if w !in t.websites then r == Err(ForeignKey) && d.Snapshot() == t
      else r == Ok(true) && d.Snapshot() == WithCopy(t, generic, w, newId)
  {
    if generic !in d.pages || !d.pages[generic].live {
      return Ok(false);
    }
    var row := SpecificCopy(d.pages[generic], generic, w);
    if Conflicts(d.Snapshot(), newId, row) {
      return Ok(false);
    }
    if w !in d.websites {
      return Err(ForeignKey);
    }
    var source := BlocksOf(d.Snapshot(), generic);
    d.pages := d.pages[newId := row];
    d.blocks := d.blocks[newId := BlocksOf(d.Snapshot(), newId) + source];
    return Ok(true);
  }

  lemma RepointedToOneFresh(t: Tables, w: Uuid, from: Uuid, to: Uuid, next: Uuid)
    requires Fresh(t, next) && to < next
    ensures Fresh(t.(menus := Repointed(t.menus, w, from, to)), next)
  {
  }

  lemma ForkFresh(t: Tables, key: string, w: Uuid, base: Uuid)
    requires Fresh(t, base)
    ensures Fresh(Fork(t, key, w, base).0, base + 1)
  {
    hide Fresh, Repointed, CopyLands, WithCopy;
    FreshUnderMore(t, base, base + 1);
    var source := ResolveGeneric(t, key);
    if source.Some? && CopyLands(t, source.value, w, base) {
      var generic := source.value;
      assert generic in KeyIds(t, key, None);
      CopyIsFresh(t, generic, w, base, base + 1);
      RepointedToOneFresh(WithCopy(t, generic, w, base), w, generic, base, base + 1);
    }
  }

  method ForkToWebsite(d: Database, key: string, w: Uuid) returns (r: Result<ForkOutcome, VersionError>)
    requires d.Valid()
    modifies d
    ensures d.Valid()
    ensures (d.Snapshot(), r) == Fork(old(d.Snapshot()), key, w, old(d.nextId))
  {
    hide Fresh, CopyLands, WithCopy, Repointed;
    var saved := d.Snapshot();
    FreshUnderMore(saved, d.nextId, d.nextId + 1);
    ForkFresh(saved, key, w, d.nextId);
    if ResolveSpecific(saved, key, w).Specific? {
      var row := ResolveSpecificEntity(saved, key, w);
      return Ok(Existing(row.value));
    }
    var source := ResolveGeneric(saved, key);
    if source.None? {
      return Err(ForkSourceMissing);
    }
    var newId := d.NewId();
    var landed := InsertSpecificCopy(d, source.value, w, newId);
    if landed.Err? {
      d.Rollback(saved);
      return Err(landed.error);
    }
    var row := ResolveSpecificEntity(d.Snapshot(), key, w);
    if landed.value {
      CopyTakesSlot(saved, source.value, w, newId);
    }
    if row.None? {
      d.Rollback(saved);
      return Err(Internal);
    }
    var id := row.value;
    if landed.value {
      d.menus := Repointed(d.menus, w, source.value, id);
      return Ok(Created(id));
    }
    return Ok(Existing(id));
  }

  lemma CopyIsFresh(t: Tables, generic: Uuid, w: Uuid, newId: Uuid, base: Uuid)
    requires Fresh(t, base) && newId < base && generic in t.pages
    ensures Fresh(WithCopy(t, generic, w, newId), base)
  {
  }

  /** One round of the fanout loop. The targets are rows of the websites table, so the foreign key holds. */
  method CopyToTarget(d: Database, generic: Uuid, w: Uuid) returns (newId: Uuid, landed: bool)
    requires d.Valid() && w in d.websites
    modifies d`pages, d`blocks, d`nextId
    ensures d.Valid() && newId == old(d.nextId) && d.nextId == newId + 1
    ensures landed == CopyLands(old(d.Snapshot()), generic, w, newId)
    ensures d.Snapshot() == if landed then WithCopy(old(d.Snapshot()), generic, w, newId) else old(d.Snapshot())
  {
    ghost var t := d.Snapshot();
    newId := d.NewId();
    var r := InsertSpecificCopy(d, generic, w, newId);
    landed := r.value;
    if landed {
      CopyIsFresh(t, generic, w, newId, d.nextId);
    }
  }

  method CopyToTargets(d: Database, generic: Uuid, targets: seq<Uuid>)
    returns (created: seq<Uuid>, touched: seq<Uuid>)
    requires d.Valid() && forall w :: w in targets ==> w in d.websites
    modifies d`pages, d`blocks, d`nextId
    ensures d.Valid()
    ensures Copied(d.Snapshot(), created, touched) == CopyAll(old(d.Snapshot()), generic, targets, old(d.nextId), |targets|)
  {
    ghost var saved := d.Snapshot();
    ghost var base := d.nextId;
    created, touched := [], [];
    for i := 0 to |targets|
      invariant d.Valid() && d.nextId == base + i
      invariant Copied(d.Snapshot(), created, touched) == CopyAll(saved, generic, targets, base, i)
    {
      var newId, landed := CopyToTarget(d, generic, targets[i]);
      if landed {
        created, touched := created + [newId], touched + [targets[i]];
      }
    }
  }

  method DeleteGenericWithFanout(d: Database, key: string) returns (r: Result<Fanout, VersionError>)
    requires d.Valid()
    modifies d
    ensures d.Valid()
    ensures (d.Snapshot(), r) == DeleteWithFanout(old(d.Snapshot()), key, old(d.nextId))
  {
    var source := ResolveGeneric(d.Snapshot(), key);
    if source.None? {
      return Err(ForkSourceMissing);
    }
    var created, touched := CopyToTargets(d, source.value, FanoutTargets(d.Snapshot(), key));
    d.menus := RepointedToSpecifics(d.Snapshot(), key, source.value);
    d.pages := SoftDeleted(d.pages, source.value);
    return Ok(Fanout(source.value, created, touched));
  }
}
