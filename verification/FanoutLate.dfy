/**
 A fanout beside other transactions: the list of websites is read first, others commit, and the copies,
 the menus and the soft delete follow. Which readers lose the page, and what a fork and a bootstrap in
 between do.
 */
module FanoutLate {
  import opened Common
  import opened Schema
  import opened Specificity
  import opened Versioning
  import opened FanoutProofs
  import opened Text
  import ForkProofs
  import SiteRuns
  import Websites

  /** What the fanout commits when its list was read in an earlier state and the rest runs in this one. */
  function LateFanout(t: Tables, key: string, targets: seq<Uuid>, base: Uuid): Tables {
    var source := ResolveGeneric(t, key);
    if source.None? then t
    else
      var c := CopyAll(t, source.value, targets, base, |targets|).tables;
      c.(menus := RepointedToSpecifics(c, key, source.value), pages := SoftDeleted(c.pages, source.value))
  }

  /** With nothing in between it is the fanout. */
  lemma LateIsFanout(t: Tables, key: string, base: Uuid)
    ensures LateFanout(t, key, FanoutTargets(t, key), base) == DeleteWithFanout(t, key, base).0
  {
    hide CopyAll, RepointedToSpecifics, SoftDeleted, FanoutTargets;
  }

  ghost predicate Distinct(targets: seq<Uuid>) {
    forall i, j :: 0 <= i < j < |targets| ==> targets[i] != targets[j]
  }

  /** The website reads a page of its own, or is on the list with the generic's url free. */
  predicate Covered(t: Tables, key: string, targets: seq<Uuid>, w: Uuid)
    requires ResolveGeneric(t, key).Some?
  {
    KeySlot(t, key, Some(w)).Some? || (w in targets && !Taken(t, ResolveGeneric(t, key).value, w))
  }

  /** Every reader keeps its page, but for the readers of the generic the list does not cover. */
  lemma LateEffective(t: Tables, key: string, targets: seq<Uuid>, base: Uuid, k: string, w: Uuid)
    requires Indexed(t) && Fresh(t, base) && ResolveGeneric(t, key).Some? && Distinct(targets)
    ensures Effective(LateFanout(t, key, targets, base), k, w)
      == if k == key && !Covered(t, key, targets, w) then None else Effective(t, k, w)
  {
    var generic := ResolveGeneric(t, key).value;
    var granted := Granted(t, generic, targets, base, |targets|);
    var after := LateFanout(t, key, targets, base);
    LatePages(t, key, targets, base);
    var id := GrantFor(t, generic, targets, base, w);
    hide LateFanout, Fresh;
    KeySlotsAfter(t, generic, granted, after, k, w, id);
    EffectiveFromSlots(t, generic, granted, after, k, w, id);
  }

  lemma LatePages(t: Tables, key: string, targets: seq<Uuid>, base: Uuid)
    requires Fresh(t, base) && ResolveGeneric(t, key).Some? && Distinct(targets)
    ensures var generic := ResolveGeneric(t, key).value;
      PagesAfter(t, generic, Granted(t, generic, targets, base, |targets|), LateFanout(t, key, targets, base))
  {
    FanoutCopies(t, ResolveGeneric(t, key).value, targets, base, |targets|);
  }

  /** The fanout is silent for every live website exactly when its list covers each that reads the generic. */
  lemma LateKeepsMeaningIff(t: Tables, key: string, targets: seq<Uuid>, base: Uuid)
    requires Indexed(t) && Fresh(t, base) && ResolveGeneric(t, key).Some? && Distinct(targets)
    ensures (forall w :: w in t.websites && t.websites[w].live ==> Covered(t, key, targets, w))
      <==> forall k, w :: w in t.websites && t.websites[w].live ==>
             Effective(LateFanout(t, key, targets, base), k, w) == Effective(t, k, w)
  {
    hide Effective, LateFanout, Covered;
    var after := LateFanout(t, key, targets, base);
    forall k, w ensures Effective(after, k, w) == if k == key && !Covered(t, key, targets, w) then None else Effective(t, k, w) {
      LateEffective(t, key, targets, base, k, w);
    }
    forall w ensures Effective(t, key, w).Some? {
      ReadsTheGeneric(t, key, w);
    }
    forall w | w in t.websites && t.websites[w].live && Effective(after, key, w) == Effective(t, key, w)
      ensures Covered(t, key, targets, w)
    {
    }
  }

  // ---- a fork in between ----

  /** A fork by any website, of any key, between the list and the rest takes nothing from anybody. */
  lemma ForkBetween(t: Tables, key: string, forked: string, site: Uuid, newId: Uuid, base: Uuid, k: string, w: Uuid)
    requires Indexed(t) && Fresh(t, newId) && newId < base && ResolveGeneric(t, key).Some? && NoUrlClash(t, key)
    requires w in t.websites && t.websites[w].live
    ensures var between := Fork(t, forked, site, newId).0;
      Effective(LateFanout(between, key, FanoutTargets(t, key), base), k, w) == Effective(between, k, w)
  {
    var between := Fork(t, forked, site, newId).0;
    ForkProofs.ForkKeepsIndexes(t, forked, site, newId);
    ForkFresh(t, forked, site, newId);
    FreshUnderMore(between, newId + 1, base);
    ForkCovers(t, key, forked, site, newId, w);
    hide Fork, LateFanout, Fresh, Indexed, FanoutTargets;
    TargetsDistinct(t, key);
    LateEffective(between, key, FanoutTargets(t, key), base, k, w);
  }

  lemma TargetsDistinct(t: Tables, key: string)
    ensures Distinct(FanoutTargets(t, key))
  {
  }

  lemma CoveredAtFirst(t: Tables, key: string, w: Uuid)
    requires ResolveGeneric(t, key).Some? && NoUrlClash(t, key) && w in t.websites && t.websites[w].live
    ensures Covered(t, key, FanoutTargets(t, key), w)
  {
    hide KeySlot, UrlSlot;
  }

  /** A fork leaves the pages alone, or adds its copy. */
  lemma ForkPages(t: Tables, forked: string, site: Uuid, newId: Uuid)
    ensures var between, source := Fork(t, forked, site, newId).0, ResolveGeneric(t, forked);
      between.pages == t.pages
      || (source.Some? && CopyLands(t, source.value, site, newId) && between.pages == WithCopy(t, source.value, site, newId).pages)
  {
    hide CopyLands, WithCopy, KeySlot;
  }

  lemma ForkCovers(t: Tables, key: string, forked: string, site: Uuid, newId: Uuid, w: Uuid)
    requires Indexed(t) && ResolveGeneric(t, key).Some? && NoUrlClash(t, key)
    requires w in t.websites && t.websites[w].live
    ensures var between := Fork(t, forked, site, newId).0;
      ResolveGeneric(between, key) == ResolveGeneric(t, key) && Covered(between, key, FanoutTargets(t, key), w)
  {
    var between, generic, source := Fork(t, forked, site, newId).0, ResolveGeneric(t, key).value, ResolveGeneric(t, forked);
    var url := t.pages[generic].content.url;
    CoveredAtFirst(t, key, w);
    ForkPages(t, forked, site, newId);
    hide Fork, FanoutTargets;
    if between.pages == t.pages {
      SamePagesSlots(t, between, key, url, Some(w));
      SamePagesSlots(t, between, key, url, None);
      hide KeySlot, UrlSlot;
    } else {
      CopyCovers(t, key, source.value, site, newId, w);
      var copied := WithCopy(t, source.value, site, newId);
      SamePagesSlots(copied, between, key, url, Some(w));
      SamePagesSlots(copied, between, key, url, None);
      hide KeySlot, UrlSlot, WithCopy;
    }
  }

  lemma CopyCovers(t: Tables, key: string, source: Uuid, site: Uuid, newId: Uuid, w: Uuid)
    requires Indexed(t) && ResolveGeneric(t, key).Some? && CopyLands(t, source, site, newId) && t.pages[source].website.None?
    requires Covered(t, key, FanoutTargets(t, key), w)
    ensures var copied, generic := WithCopy(t, source, site, newId), ResolveGeneric(t, key).value;
      && ResolveGeneric(copied, key) == Some(generic) && generic in copied.pages && copied.pages[generic] == t.pages[generic]
      && Covered(copied, key, FanoutTargets(t, key), w)
  {
    var generic := ResolveGeneric(t, key).value;
    var url := t.pages[generic].content.url;
    assert source != generic ==> !Clash(t.pages[source], t.pages[generic]);
    ForkProofs.SlotsAfterCopy(t, source, site, newId, key, url, Some(w));
    ForkProofs.SlotsAfterCopy(t, source, site, newId, key, url, None);
    assert newId !in t.pages;
    hide KeySlot, UrlSlot, FanoutTargets, Indexed, CopyLands;
  }

  lemma SamePagesSlots(t: Tables, t': Tables, k: string, u: string, site: Option<Uuid>)
    requires t'.pages == t.pages
    ensures KeySlot(t', k, site) == KeySlot(t, k, site) && UrlSlot(t', u, site) == UrlSlot(t, u, site)
  {
  }

  // ---- a bootstrap in between ----

  /** A website made between the list and the rest reads the generic, and then nothing. */
  lemma BootstrapBetween(t: Tables, key: string, input: Websites.NewWebsite, newId: Uuid, base: Uuid)
    requires SiteRuns.PagesOk(t) && Fresh(t, newId) && newId + 5 <= base && ResolveGeneric(t, key).Some? && key != Websites.HOMEPAGE
    requires Websites.CreateWebsite(t, input, newId).1.Ok?
    ensures var between := Websites.CreateWebsite(t, input, newId).0;
      && newId in between.websites && between.websites[newId].live && Effective(between, key, newId).Some?
      && Effective(LateFanout(between, key, FanoutTargets(t, key), base), key, newId).None?
  {
    var between := Websites.CreateWebsite(t, input, newId).0;
    NewSiteReads(t, key, input, newId);
    Websites.CreateKeepsFresh(t, input, newId);
    FreshUnderMore(between, newId + 5, base);
    hide Websites.CreateWebsite, SiteRuns.PagesOk, Fresh, LateFanout, FanoutTargets, KeySlot;
    TargetsDistinct(t, key);
    ReadsTheGeneric(between, key, newId);
    LateEffective(between, key, FanoutTargets(t, key), base, key, newId);
  }

  lemma NewSiteReads(t: Tables, key: string, input: Websites.NewWebsite, newId: Uuid)
    requires SiteRuns.PagesOk(t) && Fresh(t, newId) && key != Websites.HOMEPAGE && Websites.CreateWebsite(t, input, newId).1.Ok?
    ensures var between := Websites.CreateWebsite(t, input, newId).0;
      && Indexed(between) && newId in between.websites && between.websites[newId].live && newId !in FanoutTargets(t, key)
      && ResolveGeneric(between, key) == ResolveGeneric(t, key) && KeySlot(between, key, Some(newId)).None?
  {
    assert newId !in t.websites;
    assert newId !in FanoutTargets(t, key);
    SiteRuns.CreateShape(t, input, newId);
    var home, between := Websites.Homed(t, input, newId).value, Websites.CreateWebsite(t, input, newId).0;
    SiteRuns.HomedOk(t, input, newId);
    SiteRuns.BootstrapPages(t, input, newId, key, None);
    HomeAlone(t, input, newId, key);
    hide Websites.CreateWebsite, Websites.Homed, Fresh, FanoutTargets;
    SameSlot(home, between, key, None);
    SameSlot(home, between, key, Some(newId));
    hide KeySlot;
    SameIndexes(home, between);
  }

  lemma SameIndexes(t: Tables, t': Tables)
    requires SiteRuns.PagesOk(t) && t'.pages == t.pages
    ensures Indexed(t')
  {
  }

  /** A new website has no page but its homepage. */
  lemma HomeAlone(t: Tables, input: Websites.NewWebsite, base: Uuid, key: string)
    requires SiteRuns.PagesOk(t) && Fresh(t, base) && Absolute(input.homepageUrl) && Websites.Homed(t, input, base).Ok?
    requires key != Websites.HOMEPAGE
    ensures KeySlot(Websites.Homed(t, input, base).value, key, Some(base)).None?
  {
    SiteRuns.SeedIsReady(t, input, base);
    hide SiteRuns.PagesOk, Fresh, Websites.WithSeed, KeySlot, ResolveGeneric, Conflicts;
    var seeded := Websites.WithSeed(t.(websites := t.websites[base := Websites.WebsiteRow(input)]), input, base + 1).value;
    var row := Websites.HomePage(seeded.0.pages[seeded.1], seeded.1, base, input.homepageUrl);
    SiteRuns.AddedIsElsewhere(seeded.0, Websites.Homed(t, input, base).value, base + 2, row, key, Some(base));
    assert KeyIds(seeded.0, key, Some(base)) == {};
  }
}
