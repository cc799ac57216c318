/**
 What the copy-on-unlink fanout keeps: which copies land, what every reader of every website
 sees afterwards, and where the menus point.
 */
module FanoutProofs {
  import opened Common
  import opened Schema
  import opened Specificity
  import opened Versioning

  /** A live specific of `w` already sits at the generic's url. */
  predicate Taken(t: Tables, generic: Uuid, w: Uuid)
    requires generic in t.pages
  {
    UrlSlot(t, t.pages[generic].content.url, Some(w)).Some?
  }

  /** No copy lands for `w`: it has a specific for the key, or one at the url. */
  predicate Blocked(t: Tables, generic: Uuid, w: Uuid)
    requires generic in t.pages
  {
    Taken(t, generic, w) || KeySlot(t, t.pages[generic].key, Some(w)).Some?
  }

  /** A generic page, and distinct websites. */
  ghost predicate Copyable(t: Tables, generic: Uuid, targets: seq<Uuid>, base: Uuid) {
    && LivePage(t, generic)
    && (forall id :: id in t.pages ==> id < base) && (forall id :: id in t.blocks ==> id < base)
    && (forall i, j :: 0 <= i < j < |targets| ==> targets[i] != targets[j])
  }

  /** The new ids and the websites they go to: one for each listed website whose slots are free. */
  function Granted(t: Tables, generic: Uuid, targets: seq<Uuid>, base: Uuid, n: nat): (granted: map<Uuid, Uuid>)
    requires generic in t.pages && n <= |targets|
    ensures forall id :: id in granted ==>
      base <= id < base + n && granted[id] == targets[id - base] && !Blocked(t, generic, granted[id])
  {
    if n == 0 then map[]
    else
      var before := Granted(t, generic, targets, base, n - 1);
      if Blocked(t, generic, targets[n - 1]) then before else before[base + n - 1 := targets[n - 1]]
  }

  function PageCopies(p: Page, generic: Uuid, granted: map<Uuid, Uuid>): map<Uuid, Page> {
    map id | id in granted :: SpecificCopy(p, generic, granted[id])
  }

  function BlockCopies(b: multiset<Block>, granted: map<Uuid, Uuid>): map<Uuid, multiset<Block>> {
    map id | id in granted :: b
  }

  /** `t` with one full copy of the generic under every granted id. */
  function WithCopies(t: Tables, generic: Uuid, granted: map<Uuid, Uuid>): Tables
    requires generic in t.pages
  {
    t.(pages := t.pages + PageCopies(t.pages[generic], generic, granted),
       blocks := t.blocks + BlockCopies(BlocksOf(t, generic), granted))
  }

  /** The loop of conflict-tolerant inserts, in closed form. */
  lemma {:induction false} FanoutCopies(t: Tables, generic: Uuid, targets: seq<Uuid>, base: Uuid, n: nat)
    requires Copyable(t, generic, targets, base) && n <= |targets|
    ensures CopyAll(t, generic, targets, base, n).tables == WithCopies(t, generic, Granted(t, generic, targets, base, n))
  {
    if n == 0 {
      NoCopies(t, generic);
    } else {
      FanoutCopies(t, generic, targets, base, n - 1);
      var c, granted := CopyAll(t, generic, targets, base, n - 1), Granted(t, generic, targets, base, n - 1);
      var w, newId := targets[n - 1], base + n - 1;
      FanoutNext(t, generic, c, granted, w, newId);
      FanoutUnfold(t, generic, targets, base, n, c, granted, w, newId);
    }
  }

  lemma FanoutUnfold(t: Tables, generic: Uuid, targets: seq<Uuid>, base: Uuid, n: nat, c: Copied,
      granted: map<Uuid, Uuid>, w: Uuid, newId: Uuid)
    requires generic in t.pages && 0 < n <= |targets|
    requires c == CopyAll(t, generic, targets, base, n - 1) && granted == Granted(t, generic, targets, base, n - 1)
    requires w == targets[n - 1] && newId == base + n - 1
    requires CopyNext(c, generic, w, newId).tables == GrantNext(t, generic, granted, w, newId)
    ensures CopyAll(t, generic, targets, base, n).tables == WithCopies(t, generic, Granted(t, generic, targets, base, n))
  {
  }

  function GrantNext(t: Tables, generic: Uuid, granted: map<Uuid, Uuid>, w: Uuid, newId: Uuid): Tables
    requires generic in t.pages
  {
    if Blocked(t, generic, w) then WithCopies(t, generic, granted) else WithCopies(t, generic, granted[newId := w])
  }

  lemma FanoutNext(t: Tables, generic: Uuid, c: Copied, granted: map<Uuid, Uuid>, w: Uuid, newId: Uuid)
    requires LivePage(t, generic) && c.tables == WithCopies(t, generic, granted)
    requires forall id :: id in granted ==> granted[id] != w && id !in t.pages
    requires newId !in granted && newId !in t.pages && newId !in t.blocks
    ensures CopyNext(c, generic, w, newId).tables == GrantNext(t, generic, granted, w, newId)
  {
    CopyLandsWhenFree(t, generic, granted, newId, w);
    if !Blocked(t, generic, w) {
      CopyNextIs(t, generic, granted, newId, w);
    }
  }

  lemma NoCopies(t: Tables, generic: Uuid)
    requires generic in t.pages
    ensures WithCopies(t, generic, map[]) == t
  {
    assert WithCopies(t, generic, map[]).pages == t.pages;
    assert WithCopies(t, generic, map[]).blocks == t.blocks;
  }

  lemma CopyNextIs(t: Tables, generic: Uuid, granted: map<Uuid, Uuid>, newId: Uuid, w: Uuid)
    requires generic in t.pages && generic !in granted && newId !in t.pages && newId !in t.blocks && newId !in granted
    ensures WithCopy(WithCopies(t, generic, granted), generic, w, newId) == WithCopies(t, generic, granted[newId := w])
  {
    var c := WithCopies(t, generic, granted);
    assert BlocksOf(c, newId) + BlocksOf(c, generic) == BlocksOf(t, generic);
    PageCopiesNext(t.pages, t.pages[generic], generic, granted, newId, w);
    BlockCopiesNext(t.blocks, BlocksOf(t, generic), granted, newId, w);
  }

  lemma PageCopiesNext(pages: map<Uuid, Page>, p: Page, generic: Uuid, granted: map<Uuid, Uuid>, newId: Uuid, w: Uuid)
    ensures (pages + PageCopies(p, generic, granted))[newId := SpecificCopy(p, generic, w)]
         == pages + PageCopies(p, generic, granted[newId := w])
  {
  }

  lemma BlockCopiesNext(blocks: map<Uuid, multiset<Block>>, b: multiset<Block>, granted: map<Uuid, Uuid>, newId: Uuid, w: Uuid)
    ensures (blocks + BlockCopies(b, granted))[newId := b] == blocks + BlockCopies(b, granted[newId := w])
  {
  }

  lemma CopyLandsWhenFree(t: Tables, generic: Uuid, granted: map<Uuid, Uuid>, newId: Uuid, w: Uuid)
    requires LivePage(t, generic) && generic !in granted && newId !in t.pages && newId !in granted
    requires forall id :: id in granted ==> granted[id] != w && id !in t.pages
    ensures CopyLands(WithCopies(t, generic, granted), generic, w, newId) <==> !Blocked(t, generic, w)
  {
    var c := WithCopies(t, generic, granted);
    var row := SpecificCopy(t.pages[generic], generic, w);
    if Taken(t, generic, w) {
      var j := UrlSlot(t, t.pages[generic].content.url, Some(w)).value;
      assert j in c.pages && c.pages[j] == t.pages[j] && Clash(c.pages[j], row);
    } else if Blocked(t, generic, w) {
      var j := KeySlot(t, t.pages[generic].key, Some(w)).value;
      assert j in c.pages && c.pages[j] == t.pages[j] && Clash(c.pages[j], row);
    } else {
      forall j | j in c.pages && c.pages[j].live ensures !Clash(c.pages[j], row) {
        if j !in granted && t.pages[j].website == Some(w) {
          assert j !in KeyIds(t, t.pages[generic].key, Some(w));
          assert j !in UrlIds(t, t.pages[generic].content.url, Some(w));
        }
      }
    }
  }

  // ---- what readers see ----

  /** The condition the caller can check first: every website about to receive a copy has the url free. */
  predicate NoUrlClash(t: Tables, key: string) {
    var source := ResolveGeneric(t, key);
    source.Some? ==> forall w :: w in FanoutTargets(t, key) ==> !Taken(t, source.value, w)
  }

  /** The pages after the fanout: old rows, copies, and the generic dead. */
  ghost predicate PagesAfter(t: Tables, generic: Uuid, granted: map<Uuid, Uuid>, after: Tables)
    requires generic in t.pages
  {
    && (forall id :: id in granted ==> id !in t.pages)
    && after.pages == SoftDeleted(t.pages + PageCopies(t.pages[generic], generic, granted), generic)
    && after.blocks == t.blocks + BlockCopies(BlocksOf(t, generic), granted)
  }

  lemma KeyIdsAfter(t: Tables, generic: Uuid, granted: map<Uuid, Uuid>, after: Tables, k: string, site: Option<Uuid>)
    requires generic in t.pages && PagesAfter(t, generic, granted, after)
    ensures KeyIds(after, k, site) == KeyIds(t, k, site) - {generic}
      + set id | id in granted && t.pages[generic].key == k && site == Some(granted[id])
  {
  }

  lemma UrlIdsAfter(t: Tables, generic: Uuid, granted: map<Uuid, Uuid>, after: Tables, u: string, site: Option<Uuid>)
    requires generic in t.pages && PagesAfter(t, generic, granted, after)
    ensures UrlIds(after, u, site) == UrlIds(t, u, site) - {generic}
      + set id | id in granted && t.pages[generic].content.url == u && site == Some(granted[id])
  {
  }

  lemma {:induction false} GrantedCovers(t: Tables, generic: Uuid, targets: seq<Uuid>, base: Uuid, n: nat, i: nat)
    requires generic in t.pages && i < n <= |targets| && !Blocked(t, generic, targets[i])
    ensures base + i in Granted(t, generic, targets, base, n)
  {
    if i < n - 1 {
      GrantedCovers(t, generic, targets, base, n - 1, i);
    }
  }

  /** Whether a website gets a copy, and under which one id. */
  lemma GrantFor(t: Tables, generic: Uuid, targets: seq<Uuid>, base: Uuid, w: Uuid) returns (id: Option<Uuid>)
    requires generic in t.pages && forall i, j :: 0 <= i < j < |targets| ==> targets[i] != targets[j]
    ensures id.Some? <==> w in targets && !Blocked(t, generic, w)
    ensures var granted := Granted(t, generic, targets, base, |targets|);
      forall x :: x in granted && granted[x] == w <==> id == Some(x)
  {
    var granted := Granted(t, generic, targets, base, |targets|);
    id := None;
    if w in targets && !Blocked(t, generic, w) {
      var i :| 0 <= i < |targets| && targets[i] == w;
      GrantedCovers(t, generic, targets, base, |targets|, i);
      id := Some(base + i);
      forall x | x in granted && granted[x] == w ensures x == base + i {
        var j := x - base;
        assert targets[j] == w;
      }
    }
  }

  lemma FanoutPages(t: Tables, key: string, base: Uuid)
    requires Fresh(t, base) && ResolveGeneric(t, key).Some?
    ensures var generic := ResolveGeneric(t, key).value;
      var targets := FanoutTargets(t, key);
      PagesAfter(t, generic, Granted(t, generic, targets, base, |targets|), DeleteWithFanout(t, key, base).0)
  {
    var generic := ResolveGeneric(t, key).value;
    var targets := FanoutTargets(t, key);
    FanoutCopies(t, generic, targets, base, |targets|);
  }

  /** The only copy for `w`, if there is one, is `id`. */
  ghost predicate GrantIs(granted: map<Uuid, Uuid>, w: Uuid, id: Option<Uuid>) {
    forall x :: x in granted && granted[x] == w <==> id == Some(x)
  }

  lemma KeySlotsAfter(t: Tables, generic: Uuid, granted: map<Uuid, Uuid>, after: Tables, k: string, w: Uuid, id: Option<Uuid>)
    requires Indexed(t) && LivePage(t, generic) && t.pages[generic].website.None?
    requires PagesAfter(t, generic, granted, after) && GrantIs(granted, w, id)
    requires KeySlot(t, t.pages[generic].key, Some(w)).Some? ==> id.None?
    ensures KeySlot(after, k, Some(w)) == if k == t.pages[generic].key && id.Some? then id else KeySlot(t, k, Some(w))
    ensures KeySlot(after, k, None) == if k == t.pages[generic].key then None else KeySlot(t, k, None)
  {
    KeyIdsAfter(t, generic, granted, after, k, Some(w));
    KeyIdsAfter(t, generic, granted, after, k, None);
    if k == t.pages[generic].key {
      assert KeyIds(t, k, None) == {generic};
      if id.Some? {
        assert KeyIds(after, k, Some(w)) == {id.value};
      } else {
        assert KeyIds(after, k, Some(w)) == KeyIds(t, k, Some(w));
      }
    } else {
      assert KeyIds(after, k, Some(w)) == KeyIds(t, k, Some(w));
      assert KeyIds(after, k, None) == KeyIds(t, k, None);
    }
  }

  ghost predicate ShowsSame(a: Tables, i: Uuid, b: Tables, j: Uuid) {
    i in a.pages && j in b.pages && a.pages[i].content == b.pages[j].content && BlocksOf(a, i) == BlocksOf(b, j)
  }

  /** A row that was there shows what it showed, and a copy shows what the generic showed. */
  lemma ViewsAfter(t: Tables, generic: Uuid, granted: map<Uuid, Uuid>, after: Tables, id: Uuid)
    requires generic in t.pages && PagesAfter(t, generic, granted, after)
    ensures id in t.pages && id != generic ==> ShowsSame(after, id, t, id)
    ensures id in granted ==> ShowsSame(after, id, t, generic)
  {
  }

  lemma EffectiveAfter(t: Tables, key: string, base: Uuid, k: string, w: Uuid)
    requires Indexed(t) && Fresh(t, base) && ResolveGeneric(t, key).Some?
    requires w in t.websites && t.websites[w].live
    ensures var generic := ResolveGeneric(t, key).value;
      Effective(DeleteWithFanout(t, key, base).0, k, w)
      == if k == key && w in FanoutTargets(t, key) && Taken(t, generic, w) then None else Effective(t, k, w)
  {
    var generic := ResolveGeneric(t, key).value;
    var targets := FanoutTargets(t, key);
    var granted := Granted(t, generic, targets, base, |targets|);
    var after := DeleteWithFanout(t, key, base).0;
    FanoutPages(t, key, base);
    var id := GrantFor(t, generic, targets, base, w);
    KeySlotsAfter(t, generic, granted, after, k, w, id);
    EffectiveFromSlots(t, generic, granted, after, k, w, id);
  }

  lemma EffectiveFromSlots(t: Tables, generic: Uuid, granted: map<Uuid, Uuid>, after: Tables, k: string, w: Uuid, id: Option<Uuid>)
    requires LivePage(t, generic) && ResolveGeneric(t, t.pages[generic].key) == Some(generic)
    requires t.pages[generic].website.None?
    requires PagesAfter(t, generic, granted, after) && (id.Some? ==> id.value in granted)
    requires KeySlot(t, t.pages[generic].key, Some(w)).Some? ==> id.None?
    requires KeySlot(after, k, Some(w)) == if k == t.pages[generic].key && id.Some? then id else KeySlot(t, k, Some(w))
    requires KeySlot(after, k, None) == if k == t.pages[generic].key then None else KeySlot(t, k, None)
    ensures Effective(after, k, w)
      == if k == t.pages[generic].key && KeySlot(t, k, Some(w)).None? && id.None? then None else Effective(t, k, w)
  {
    ViewsAfter(t, generic, granted, after, if id.Some? then id.value else generic);
    if KeySlot(t, k, Some(w)).Some? {
      ViewsAfter(t, generic, granted, after, KeySlot(t, k, Some(w)).value);
    } else if KeySlot(t, k, None).Some? {
      ViewsAfter(t, generic, granted, after, KeySlot(t, k, None).value);
    }
  }

  // ---- what the fanout answers ----

  /** The answer lists name the granted copies and their websites, in the order they were made. */
  ghost predicate ListsGranted(created: seq<Uuid>, touched: seq<Uuid>, granted: map<Uuid, Uuid>) {
    && |created| == |touched|
    && (forall i :: 0 <= i < |created| ==> created[i] in granted && granted[created[i]] == touched[i])
    && (forall id :: id in granted ==> id in created)
    && (forall i, j :: 0 <= i < j < |created| ==> created[i] < created[j])
  }

  lemma ListStep(c: Copied, generic: Uuid, w: Uuid, newId: Uuid, granted: map<Uuid, Uuid>)
    requires ListsGranted(c.created, c.touched, granted) && forall id :: id in granted ==> id < newId
    ensures var next := CopyNext(c, generic, w, newId);
      ListsGranted(next.created, next.touched, if CopyLands(c.tables, generic, w, newId) then granted[newId := w] else granted)
  {
  }

  lemma {:induction false} FanoutLists(t: Tables, generic: Uuid, targets: seq<Uuid>, base: Uuid, n: nat)
    requires Copyable(t, generic, targets, base) && n <= |targets|
    ensures var c := CopyAll(t, generic, targets, base, n);
      ListsGranted(c.created, c.touched, Granted(t, generic, targets, base, n))
  {
    hide ListsGranted, CopyLands, WithCopy, WithCopies, Blocked, KeySlot;
    if n == 0 {
      EmptyLists();
    } else {
      FanoutLists(t, generic, targets, base, n - 1);
      FanoutCopies(t, generic, targets, base, n - 1);
      var c, granted := CopyAll(t, generic, targets, base, n - 1), Granted(t, generic, targets, base, n - 1);
      var w, newId := targets[n - 1], base + n - 1;
      LandsNext(t, generic, c.tables, granted, w, newId);
      ListStep(c, generic, w, newId, granted);
    }
  }

  lemma EmptyLists()
    ensures ListsGranted([], [], map[])
  {
  }

  lemma LandsNext(t: Tables, generic: Uuid, c: Tables, granted: map<Uuid, Uuid>, w: Uuid, newId: Uuid)
    requires LivePage(t, generic) && c == WithCopies(t, generic, granted)
    requires forall id :: id in granted ==> granted[id] != w && id !in t.pages
    requires newId !in granted && newId !in t.pages && newId !in t.blocks
    ensures CopyLands(c, generic, w, newId) <==> !Blocked(t, generic, w)
  {
    CopyLandsWhenFree(t, generic, granted, newId, w);
  }

  /** New ids and websites rise together. */
  lemma TouchedInOrder(t: Tables, generic: Uuid, targets: seq<Uuid>, base: Uuid, created: seq<Uuid>, touched: seq<Uuid>)
    requires generic in t.pages && forall i, j :: 0 <= i < j < |targets| ==> targets[i] < targets[j]
    requires ListsGranted(created, touched, Granted(t, generic, targets, base, |targets|))
    ensures forall j, k :: 0 <= j < k < |touched| ==> touched[j] < touched[k]
  {
    var granted := Granted(t, generic, targets, base, |targets|);
    forall j, k | 0 <= j < k < |touched| ensures touched[j] < touched[k] {
      assert touched[j] == targets[created[j] - base] && touched[k] == targets[created[k] - base];
    }
  }

  /**
   The verb answers with the dead generic, and for each website that received a copy its id, in
   website order; and each of these websites now resolves the key to that very page.
   */
  lemma FanoutAnswers(t: Tables, key: string, base: Uuid, i: nat)
    requires Indexed(t) && Fresh(t, base) && ResolveGeneric(t, key).Some?
    ensures var (after, answer) := DeleteWithFanout(t, key, base);
      && answer.Ok? && answer.value.generic == ResolveGeneric(t, key).value && |answer.value.created| == |answer.value.touched|
      && (i < |answer.value.created| ==>
            KeySlot(after, key, Some(answer.value.touched[i])) == Some(answer.value.created[i])
            && answer.value.touched[i] in FanoutTargets(t, key))
      && (forall j, k :: 0 <= j < k < |answer.value.touched| ==> answer.value.touched[j] < answer.value.touched[k])
  {
    var generic := ResolveGeneric(t, key).value;
    var targets := FanoutTargets(t, key);
    var granted := Granted(t, generic, targets, base, |targets|);
    var (after, answer) := DeleteWithFanout(t, key, base);
    assert generic in KeyIds(t, key, None);
    FanoutLists(t, generic, targets, base, |targets|);
    FanoutPages(t, key, base);
    TouchedInOrder(t, generic, targets, base, answer.value.created, answer.value.touched);
    if i < |answer.value.created| {
      var w, newId := answer.value.touched[i], answer.value.created[i];
      var id := GrantFor(t, generic, targets, base, w);
      assert id == Some(newId);
      KeySlotsAfter(t, generic, granted, after, key, w, id);
    }
  }

  /** And no website that could receive a copy is missing from the answer. */
  lemma FanoutTouchesAll(t: Tables, key: string, base: Uuid, w: Uuid)
    requires Fresh(t, base) && ResolveGeneric(t, key).Some?
    requires w in FanoutTargets(t, key) && !Taken(t, ResolveGeneric(t, key).value, w)
    ensures w in DeleteWithFanout(t, key, base).1.value.touched
  {
    var generic := ResolveGeneric(t, key).value;
    var targets := FanoutTargets(t, key);
    assert generic in KeyIds(t, key, None);
    FanoutLists(t, generic, targets, base, |targets|);
    var id := GrantFor(t, generic, targets, base, w);
    var created := CopyAll(t, generic, targets, base, |targets|).created;
    assert id.value in created;
  }

  /** The fanout changes no reader's page for any key on any live website, exactly when no url clash awaits it. */
  lemma FanoutKeepsMeaning(t: Tables, key: string, base: Uuid)
    requires Indexed(t) && Fresh(t, base) && ResolveGeneric(t, key).Some?
    ensures NoUrlClash(t, key) <==>
      forall k, w :: w in t.websites && t.websites[w].live ==>
        Effective(DeleteWithFanout(t, key, base).0, k, w) == Effective(t, k, w)
  {
    hide Effective, DeleteWithFanout;
    var after := DeleteWithFanout(t, key, base).0;
    var generic := ResolveGeneric(t, key).value;
    if NoUrlClash(t, key) {
      forall k, w | w in t.websites && t.websites[w].live ensures Effective(after, k, w) == Effective(t, k, w) {
        EffectiveAfter(t, key, base, k, w);
      }
    } else {
      var w :| w in FanoutTargets(t, key) && Taken(t, generic, w);
      EffectiveAfter(t, key, base, key, w);
      ReadsTheGeneric(t, key, w);
    }
  }

  /** A website without a copy reads the generic. */
  lemma ReadsTheGeneric(t: Tables, key: string, w: Uuid)
    requires ResolveGeneric(t, key).Some?
    ensures Effective(t, key, w).Some?
  {
  }

  lemma UrlSlotsAfter(t: Tables, generic: Uuid, granted: map<Uuid, Uuid>, after: Tables, u: string, w: Uuid, id: Option<Uuid>)
    requires Indexed(t) && LivePage(t, generic) && t.pages[generic].website.None?
    requires PagesAfter(t, generic, granted, after) && GrantIs(granted, w, id)
    requires Taken(t, generic, w) ==> id.None?
    ensures UrlSlot(after, u, Some(w)) == if u == t.pages[generic].content.url && id.Some? then id else UrlSlot(t, u, Some(w))
    ensures UrlSlot(after, u, None) == if u == t.pages[generic].content.url then None else UrlSlot(t, u, None)
  {
    UrlIdsAfter(t, generic, granted, after, u, Some(w));
    UrlIdsAfter(t, generic, granted, after, u, None);
    if u == t.pages[generic].content.url {
      assert UrlIds(t, u, None) == {generic};
      if id.Some? {
        assert UrlIds(after, u, Some(w)) == {id.value};
      } else {
        assert UrlIds(after, u, Some(w)) == UrlIds(t, u, Some(w));
      }
    } else {
      assert UrlIds(after, u, Some(w)) == UrlIds(t, u, Some(w));
      assert UrlIds(after, u, None) == UrlIds(t, u, None);
    }
  }

  /**
   By url the fanout is not silent: a website that already had its own specific, at another url,
   stops answering at the generic's url. Every other url of every live website reads as before,
   unless a clash kept the website from its copy, and then the specific in the way still answers.
   */
  lemma FanoutByUrl(t: Tables, key: string, base: Uuid, u: string, w: Uuid)
    requires Indexed(t) && Fresh(t, base) && ResolveGeneric(t, key).Some?
    requires w in t.websites && t.websites[w].live
    ensures var generic := ResolveGeneric(t, key).value;
      EffectiveAt(DeleteWithFanout(t, key, base).0, u, w)
      == if u == t.pages[generic].content.url && KeySlot(t, key, Some(w)).Some? && !Taken(t, generic, w)
         then None else EffectiveAt(t, u, w)
  {
    var generic := ResolveGeneric(t, key).value;
    var targets := FanoutTargets(t, key);
    var granted := Granted(t, generic, targets, base, |targets|);
    var after := DeleteWithFanout(t, key, base).0;
    FanoutPages(t, key, base);
    var id := GrantFor(t, generic, targets, base, w);
    UrlSlotsAfter(t, generic, granted, after, u, w, id);
    UrlFromSlots(t, generic, granted, after, u, w, id);
  }

  lemma UrlFromSlots(t: Tables, generic: Uuid, granted: map<Uuid, Uuid>, after: Tables, u: string, w: Uuid, id: Option<Uuid>)
    requires Indexed(t) && LivePage(t, generic) && t.pages[generic].website.None?
    requires PagesAfter(t, generic, granted, after) && (id.Some? ==> id.value in granted && !Taken(t, generic, w))
    requires UrlSlot(after, u, Some(w)) == if u == t.pages[generic].content.url && id.Some? then id else UrlSlot(t, u, Some(w))
    requires UrlSlot(after, u, None) == if u == t.pages[generic].content.url then None else UrlSlot(t, u, None)
    ensures EffectiveAt(after, u, w)
      == if u == t.pages[generic].content.url && UrlSlot(t, u, Some(w)).None? && id.None? then None else EffectiveAt(t, u, w)
  {
    SlotHolds(t, generic);
    ViewsAfter(t, generic, granted, after, if id.Some? then id.value else generic);
    if UrlSlot(t, u, Some(w)).Some? {
      ViewsAfter(t, generic, granted, after, UrlSlot(t, u, Some(w)).value);
    } else if UrlSlot(t, u, None).Some? {
      ViewsAfter(t, generic, granted, after, UrlSlot(t, u, None).value);
    }
  }

  // ---- where the menus point ----

  lemma DeadGenericKeepsSpecifics(c: Tables, generic: Uuid, menus: map<Uuid, Menu>, k: string, w: Uuid)
    requires generic in c.pages && c.pages[generic].website.None?
    ensures KeySlot(c.(menus := menus, pages := SoftDeleted(c.pages, generic)), k, Some(w)) == KeySlot(c, k, Some(w))
  {
    assert KeyIds(c.(menus := menus, pages := SoftDeleted(c.pages, generic)), k, Some(w)) == KeyIds(c, k, Some(w));
  }

  lemma RepointedAt(c: Tables, key: string, generic: Uuid, m: Uuid)
    requires m in c.menus
    ensures RepointedToSpecifics(c, key, generic).Keys == c.menus.Keys
    ensures var own := KeySlot(c, key, Some(c.menus[m].website));
      RepointedToSpecifics(c, key, generic)[m]
      == if c.menus[m].live && c.menus[m].page == Some(generic) && own.Some? then c.menus[m].(page := own) else c.menus[m]
  {
  }

  /** Every menu keeps everything but its page, and only a live menu bound to the dead generic moves. */
  lemma FanoutMenus(t: Tables, key: string, base: Uuid, m: Uuid)
    requires Fresh(t, base) && ResolveGeneric(t, key).Some? && m in t.menus
    ensures var generic := ResolveGeneric(t, key).value;
      var after := DeleteWithFanout(t, key, base).0;
      var own := KeySlot(after, key, Some(t.menus[m].website));
      && after.menus.Keys == t.menus.Keys
      && after.menus[m] == (if t.menus[m].live && t.menus[m].page == Some(generic) && own.Some?
                            then t.menus[m].(page := own) else t.menus[m])
  {
    var generic := ResolveGeneric(t, key).value;
    var targets := FanoutTargets(t, key);
    FanoutCopies(t, generic, targets, base, |targets|);
    var copied := CopyAll(t, generic, targets, base, |targets|).tables;
    assert copied.menus == t.menus && generic in copied.pages && copied.pages[generic].website.None? by {
      CopiesKeepTheRest(t, generic, Granted(t, generic, targets, base, |targets|));
    }
    RepointedAt(copied, key, generic, m);
    DeadGenericKeepsSpecifics(copied, generic, RepointedToSpecifics(copied, key, generic), key, t.menus[m].website);
  }

  lemma CopiesKeepTheRest(t: Tables, generic: Uuid, granted: map<Uuid, Uuid>)
    requires generic in t.pages && generic !in granted
    ensures var c := WithCopies(t, generic, granted);
      c.menus == t.menus && generic in c.pages && c.pages[generic] == t.pages[generic]
  {
  }

  /** No live menu of a live website stays on the dead generic, but for those of the clashing websites. */
  lemma MenusLeaveTheGeneric(t: Tables, key: string, base: Uuid, m: Uuid)
    requires Indexed(t) && Fresh(t, base) && ResolveGeneric(t, key).Some?
    requires m in t.menus && t.menus[m].live
    requires t.menus[m].website in t.websites && t.websites[t.menus[m].website].live
    ensures var generic := ResolveGeneric(t, key).value;
      var w := t.menus[m].website;
      var after := DeleteWithFanout(t, key, base).0;
      m in after.menus && (after.menus[m].page == Some(generic) <==>
        t.menus[m].page == Some(generic) && w in FanoutTargets(t, key) && Taken(t, generic, w))
  {
    var generic := ResolveGeneric(t, key).value;
    var w := t.menus[m].website;
    var targets := FanoutTargets(t, key);
    var granted := Granted(t, generic, targets, base, |targets|);
    var after := DeleteWithFanout(t, key, base).0;
    FanoutMenus(t, key, base, m);
    FanoutPages(t, key, base);
    var id := GrantFor(t, generic, targets, base, w);
    KeySlotsAfter(t, generic, granted, after, key, w, id);
    assert generic !in granted;
    assert KeySlot(after, key, Some(w)) != Some(generic) by {
      KeyIdsAfter(t, generic, granted, after, key, Some(w));
    }
  }

  // ---- what the fanout writes ----

  /** Every new row is a full copy that remembers the generic, with its blocks; the generic dies, and every other row stays. */
  lemma FanoutStores(t: Tables, key: string, base: Uuid, id: Uuid)
    requires Fresh(t, base) && ResolveGeneric(t, key).Some?
    ensures var after, generic := DeleteWithFanout(t, key, base).0, KeySlot(t, key, None).value;
      && generic in after.pages && after.pages[generic] == t.pages[generic].(live := false)
      && (id in t.pages && id != generic ==>
            id in after.pages && after.pages[id] == t.pages[id] && BlocksOf(after, id) == BlocksOf(t, id))
      && (id in after.pages && id !in t.pages ==>
            && var row := after.pages[id];
               && row.live && row.key == key && row.forkedFrom == Some(generic) && row.content == t.pages[generic].content
               && row.website.Some? && row.website.value in FanoutTargets(t, key)
               && KeySlot(t, key, row.website).None? && UrlSlot(t, row.content.url, row.website).None?
               && BlocksOf(after, id) == BlocksOf(t, generic))
      && after.websites == t.websites && after.redirects == t.redirects && after.members == t.members && after.menuBlocks == t.menuBlocks
  {
    var generic := ResolveGeneric(t, key).value;
    var targets := FanoutTargets(t, key);
    var granted := Granted(t, generic, targets, base, |targets|);
    FanoutPages(t, key, base);
    ViewsAfter(t, generic, granted, DeleteWithFanout(t, key, base).0, id);
    FanoutAside(t, generic, targets, base, |targets|);
    assert generic in KeyIds(t, key, None);
    hide KeySlot, UrlSlot, FanoutTargets, CopyAll, Fresh;
  }

  lemma {:induction false} FanoutAside(t: Tables, generic: Uuid, targets: seq<Uuid>, base: Uuid, n: nat)
    requires n <= |targets|
    ensures var c := CopyAll(t, generic, targets, base, n).tables;
      c.websites == t.websites && c.redirects == t.redirects && c.members == t.members && c.menuBlocks == t.menuBlocks
  {
    if n > 0 {
      FanoutAside(t, generic, targets, base, n - 1);
    }
  }

  /** The websites the fanout copies to: the live ones without a page of their own for the key, each once, in id order. */
  lemma TargetsAre(t: Tables, key: string)
    ensures var targets := FanoutTargets(t, key);
      && (forall w :: w in targets <==> w in t.websites && t.websites[w].live && KeySlot(t, key, Some(w)).None?)
      && (forall i, j :: 0 <= i < j < |targets| ==> targets[i] < targets[j])
  {
  }

  /** Without a generic the fanout refuses and writes nothing. */
  lemma FanoutAcceptedIff(t: Tables, key: string, base: Uuid)
    ensures DeleteWithFanout(t, key, base).1.Ok? <==> KeySlot(t, key, None).Some?
    ensures DeleteWithFanout(t, key, base).1.Err? ==> DeleteWithFanout(t, key, base) == (t, Err(ForkSourceMissing))
  {
    hide CopyAll, FanoutTargets, KeySlot;
  }
}
