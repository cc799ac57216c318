/**
 Redirect chains over whole runs of the content and redirect verbs: no chain of any website ever
 loops exactly when every redirect that was written was harmless when it was written.
 */
module ChainHistory {
  import opened Common
  import opened Schema
  import opened Routing
  import opened RedirectChains
  import opened LangMatcher
  import opened Rewriting
  import opened Text
  import FanoutProofs
  import Pages
  import Redirects
  import SiteHistory
  import SiteRuns
  import Specificity
  import Versioning
  import Websites

  ghost predicate AllEnd(t: Tables) {
    forall w :: EveryChainEnds(t, w)
  }

  ghost predicate HarmlessRow(t: Tables, row: Redirect) {
    forall w :: Harmless(t, w, row)
  }

  /** Redirects belong to websites of the table, living or dead. */
  ghost predicate Owned(t: Tables) {
    forall r :: r in t.redirects ==> t.redirects[r].website in t.websites
  }

  /** Under the language code, the rank falls from the source of every redirect that sends on to the normal form of its target. */
  ghost predicate FallsUnder(t: Tables, w: Uuid, code: string, rank: string -> nat) {
    forall id :: id in t.redirects && t.redirects[id].live && SendsUnder(t.redirects[id], w, code) ==>
      rank(NormalForm(OrEmpty(t.redirects[id].urlTo), code)) < rank(t.redirects[id].urlFrom)
  }

  /** What can be looked up before the code is patched: the rows it leaves to the table have an order. */
  ghost predicate Ranked(t: Tables, w: Uuid, code: string) {
    exists rank: string -> nat :: FallsUnder(t, w, code, rank)
  }

  /** The redirect the event leaves, if any, is harmless beside those that were there; a new language code leaves them in order. */
  ghost predicate Careful(t: Tables, e: SiteHistory.Event, base: Uuid) {
    var after := SiteHistory.Next(t, e, base);
    match e
    case PatchRedirect(id, p) =>
      Redirects.PatchRedirect(t, id, p).1.Ok? ==> id in after.redirects && HarmlessRow(Redirects.Delete(t, id).0, after.redirects[id])
    case CreateRedirect(_, _, _, _) => after == t || (base in after.redirects && HarmlessRow(t, after.redirects[base]))
    case RecordRedirect(_, _, _, _) => after == t || (base in after.redirects && HarmlessRow(t, after.redirects[base]))
    case RenamePage(_, _, _) => after.redirects == t.redirects || (base in after.redirects && HarmlessRow(t, after.redirects[base]))
    case PatchLang(w, code) => w in t.websites ==> Ranked(t, w, code)
    case _ => true
  }

  ghost predicate CarefulRun(init: SiteHistory.State, run: SiteHistory.Run) {
    match run
    case Begin => true
    case Then(before, e) =>
      var s := SiteHistory.After(init, before);
      CarefulRun(init, before) && Careful(s.tables, e, s.next)
  }

  /** At every moment of the run every chain of every website ends. */
  ghost predicate NeverLoops(init: SiteHistory.State, run: SiteHistory.Run) {
    AllEnd(SiteHistory.After(init, run).tables) && (run.Then? ==> NeverLoops(init, run.before))
  }

  // ---- the events that write no redirect ----

  /** A website without redirects has only slash and language hops. */
  lemma NoRowsEnd(t: Tables, w: Uuid)
    requires forall r :: r in t.redirects ==> t.redirects[r].website != w
    ensures EveryChainEnds(t, w)
  {
    var rank := (path: string) => 0;
    forall p: string ensures Ends(t, w, p) {
      var n := RankedChainEnds(t, w, rank, p);
    }
  }

  lemma FanoutAside(t: Tables, key: string, base: Uuid)
    ensures var after := Versioning.DeleteWithFanout(t, key, base).0; after.redirects == t.redirects && after.websites == t.websites
  {
    hide Versioning.CopyAll, Versioning.RepointedToSpecifics, Versioning.SoftDeleted, Versioning.FanoutTargets;
    var targets := Versioning.FanoutTargets(t, key);
    if Specificity.ResolveGeneric(t, key).Some? {
      FanoutProofs.FanoutAside(t, Specificity.ResolveGeneric(t, key).value, targets, base, |targets|);
    }
  }

  lemma HomedAside(t: Tables, site: Websites.NewWebsite, base: Uuid)
    requires Websites.Homed(t, site, base).Ok?
    ensures var home := Websites.Homed(t, site, base).value;
      home == t.(websites := t.websites[base := Websites.WebsiteRow(site)], pages := home.pages)
  {
    hide Conflicts, Specificity.ResolveGeneric;
  }

  lemma BootstrapAside(t: Tables, site: Websites.NewWebsite, base: Uuid)
    ensures var after := Websites.CreateWebsite(t, site, base).0;
      after.redirects == t.redirects && after.websites in {t.websites, t.websites[base := Websites.WebsiteRow(site)]}
  {
    if Websites.CreateWebsite(t, site, base).1.Ok? {
      SiteRuns.CreateShape(t, site, base);
      HomedAside(t, site, base);
      hide Websites.CreateWebsite, Websites.Homed;
    }
  }

  predicate WritesRedirects(e: SiteHistory.Event) {
    e.CreateRedirect? || e.RecordRedirect? || e.RenamePage? || e.PatchRedirect? || e.DeleteRedirect?
  }

  /** Neither the redirects nor a language code is touched. */
  predicate Aside(e: SiteHistory.Event) {
    !WritesRedirects(e) && !e.PatchLang?
  }

  lemma OtherEvents(t: Tables, e: SiteHistory.Event, base: Uuid)
    requires Aside(e)
    ensures var after := SiteHistory.Next(t, e, base);
      && after.redirects == t.redirects && t.websites.Keys <= after.websites.Keys
      && forall w :: w in t.websites && w != base ==> after.websites[w].lang == t.websites[w].lang
  {
    hide Websites.CreateWebsite, Versioning.DeleteWithFanout, SiteHistory.PatchPageUrl, Pages.DeleteSpecific;
    match e
    case CreateSite(site) => BootstrapAside(t, site, base);
    case DeleteGeneric(key) => FanoutAside(t, key, base);
    case DeletePage(id) => DeleteAside(t, id);
    case PatchPage(id, url) => PatchAside(t, id, url);
    case PatchHome(w, url) =>
    case _ => PageEvents(t, e, base);
  }

  lemma PageEvents(t: Tables, e: SiteHistory.Event, base: Uuid)
    requires e.CreatePage? || e.PublishPage? || e.UnpublishPage? || e.ForkPage?
    ensures var after := SiteHistory.Next(t, e, base); after.redirects == t.redirects && after.websites == t.websites
  {
    hide Pages.ValidateUrl, Conflicts, Websites.CreateWebsite, Versioning.DeleteWithFanout;
  }

  lemma DeleteAside(t: Tables, id: Uuid)
    ensures var after := Pages.DeleteSpecific(t, id).0; after.redirects == t.redirects && after.websites == t.websites
  {
  }

  lemma PatchAside(t: Tables, id: Uuid, url: string)
    ensures var after := SiteHistory.PatchPageUrl(t, id, url).0; after.redirects == t.redirects && after.websites == t.websites
  {
    hide Pages.ValidateUrl, Pages.UrlOccupied;
  }

  lemma OtherEventsEnd(t: Tables, e: SiteHistory.Event, base: Uuid)
    requires AllEnd(t) && Owned(t) && Fresh(t, base) && Aside(e)
    ensures AllEnd(SiteHistory.Next(t, e, base)) && Owned(SiteHistory.Next(t, e, base))
  {
    assert base !in t.websites;
    hide Fresh, SiteHistory.Next, EveryChainEnds;
    OtherEvents(t, e, base);
    var after := SiteHistory.Next(t, e, base);
    forall w ensures EveryChainEnds(after, w) {
      if w in t.websites {
        SameChains(t, after, w);
      } else {
        NoRowsEnd(after, w);
      }
    }
  }

  // ---- the events that do ----

  lemma SafeForAll(t: Tables, after: Tables, row: Redirect, idle: bool)
    requires forall w :: EveryChainEnds(after, w) <==> (idle || Harmless(t, w, row))
    ensures AllEnd(after) <==> (idle || HarmlessRow(t, row))
  {
    hide EveryChainEnds, Harmless;
  }

  lemma WritesEnd(t: Tables, e: SiteHistory.Event, base: Uuid)
    requires AllEnd(t) && Redirects.OneAnswerPerPath(t) && WritesRedirects(e)
    ensures AllEnd(SiteHistory.Next(t, e, base)) <==> Careful(t, e, base)
  {
    var after := SiteHistory.Next(t, e, base);
    hide EveryChainEnds, Harmless, Redirects.OneAnswerPerPath, Redirects.PatchRedirect, Pages.RenamePage,
      Redirects.Record, Redirects.Create, Redirects.Delete;
    match e
    case CreateRedirect(w, kind, from, to) => CreateEnds(t, w, kind, from, to, base);
    case RecordRedirect(w, from, to, kind) => RecordEnds(t, w, from, to, kind, base);
    case RenamePage(id, url, redirect) => RenameEnds(t, id, url, redirect, base);
    case PatchRedirect(id, p) => PatchEnds(t, id, p);
    case DeleteRedirect(id) =>
      forall v ensures EveryChainEnds(after, v) {
        DeleteIsSafe(t, id, v);
      }
  }

  lemma CreateEnds(t: Tables, w: Uuid, kind: string, urlFrom: string, urlTo: Option<string>, newId: Uuid)
    requires AllEnd(t)
    ensures var after := Redirects.Create(t, w, kind, urlFrom, urlTo, newId).0;
      AllEnd(after) <==> (after == t || (newId in after.redirects && HarmlessRow(t, after.redirects[newId])))
  {
    hide EveryChainEnds, Harmless, Redirects.ValidateRedirect, Pages.RedirectTaken;
    var after := Redirects.Create(t, w, kind, urlFrom, urlTo, newId).0;
    if after != t {
      forall v ensures EveryChainEnds(after, v) <==> Harmless(t, v, after.redirects[newId]) {
        CreateIsSafe(t, w, kind, urlFrom, urlTo, newId, v);
      }
    }
  }

  lemma RecordEnds(t: Tables, w: Uuid, urlFrom: string, urlTo: string, kind: string, newId: Uuid)
    requires AllEnd(t)
    ensures var after := Redirects.Record(t, w, urlFrom, urlTo, kind, newId).0;
      AllEnd(after) <==> (after == t || (newId in after.redirects && HarmlessRow(t, after.redirects[newId])))
  {
    hide EveryChainEnds, Harmless, Redirects.ValidateRedirect, Pages.RedirectTaken;
    var after := Redirects.Record(t, w, urlFrom, urlTo, kind, newId).0;
    if after != t {
      forall v ensures EveryChainEnds(after, v) <==> Harmless(t, v, after.redirects[newId]) {
        RecordIsSafe(t, w, urlFrom, urlTo, kind, newId, v);
      }
    }
  }

  lemma RenameEnds(t: Tables, id: Uuid, url: string, redirect: Option<int>, newId: Uuid)
    requires AllEnd(t)
    ensures var after := Pages.RenamePage(t, id, url, redirect, newId).0;
      AllEnd(after) <==> (after.redirects == t.redirects || (newId in after.redirects && HarmlessRow(t, after.redirects[newId])))
  {
    hide EveryChainEnds, Harmless, Pages.RenamePage;
    var after := Pages.RenamePage(t, id, url, redirect, newId).0;
    forall v ensures EveryChainEnds(after, v)
      <==> (after.redirects == t.redirects || (newId in after.redirects && Harmless(t, v, after.redirects[newId])))
    {
      RenameIsSafe(t, id, url, redirect, newId, v);
    }
    if newId in after.redirects {
      SafeForAll(t, after, after.redirects[newId], after.redirects == t.redirects);
    } else {
      assert AllEnd(after) ==> EveryChainEnds(after, 0);
    }
  }

  lemma PatchEnds(t: Tables, id: Uuid, p: Redirects.Patch)
    requires AllEnd(t) && Redirects.OneAnswerPerPath(t)
    ensures var (after, r) := Redirects.PatchRedirect(t, id, p);
      AllEnd(after) <==> (r.Ok? ==> id in after.redirects && HarmlessRow(Redirects.Delete(t, id).0, after.redirects[id]))
  {
    hide EveryChainEnds, Harmless, Redirects.ValidateRedirect, Redirects.OneAnswerPerPath, Redirects.OtherHasFrom, Redirects.Delete;
    var (after, r) := Redirects.PatchRedirect(t, id, p);
    if r.Ok? {
      forall v ensures EveryChainEnds(after, v) <==> Harmless(Redirects.Delete(t, id).0, v, after.redirects[id]) {
        PatchIsSafe(t, id, p, v);
      }
    }
  }

  lemma WritesOwned(t: Tables, e: SiteHistory.Event, base: Uuid)
    requires Owned(t) && WritesRedirects(e)
    ensures Owned(SiteHistory.Next(t, e, base))
  {
    hide Redirects.ValidateRedirect, Pages.ValidateUrl, Pages.RedirectTaken, Pages.UrlOccupied, Redirects.OtherHasFrom, Pages.Moved;
    if e.RenamePage? && LivePage(t, e.id) {
      MovedIs(t, e.id, e.url);
      MovedKeepsLangs(t, e.id, e.url);
    }
  }

  // ---- the language code ----

  lemma PatchedLang(t: Tables, w: Uuid, code: string)
    requires w in t.websites
    ensures var after := SiteHistory.PatchLangCode(t, w, code);
      && after.redirects == t.redirects && after.websites.Keys == t.websites.Keys
      && forall v :: LangOf(after, v) == if v == w then code else LangOf(t, v)
  {
  }

  /** A new language code keeps every chain ending exactly when the redirects it leaves to the table are ranked under it. */
  lemma LangPatchIsSafe(t: Tables, w: Uuid, code: string, v: Uuid)
    requires Redirects.OneAnswerPerPath(t) && EveryChainEnds(t, v) && w in t.websites
    ensures EveryChainEnds(SiteHistory.PatchLangCode(t, w, code), v) <==> (v == w ==> Ranked(t, w, code))
  {
    var after := SiteHistory.PatchLangCode(t, w, code);
    PatchedLang(t, w, code);
    hide EveryChainEnds, SiteHistory.PatchLangCode, NormalForm, Hop;
    if v == w {
      ChainsEndIffRanked(after, w);
      forall rank: string -> nat ensures RankFalls(after, w, rank) <==> FallsUnder(t, w, code, rank) {
        SameRanks(t, after, w, code, rank);
      }
    } else {
      SameChains(t, after, v);
    }
  }

  lemma SameRanks(t: Tables, after: Tables, w: Uuid, code: string, rank: string -> nat)
    requires after.redirects == t.redirects && LangOf(after, w) == code
    ensures RankFalls(after, w, rank) <==> FallsUnder(t, w, code, rank)
  {
    hide NormalForm, Hop;
  }

  lemma LangEnds(t: Tables, w: Uuid, code: string)
    requires AllEnd(t) && Redirects.OneAnswerPerPath(t)
    ensures AllEnd(SiteHistory.PatchLangCode(t, w, code)) <==> (w in t.websites ==> Ranked(t, w, code))
  {
    hide EveryChainEnds, Ranked, Redirects.OneAnswerPerPath;
    var after := SiteHistory.PatchLangCode(t, w, code);
    if w in t.websites {
      forall v ensures EveryChainEnds(after, v) <==> (v == w ==> Ranked(t, w, code)) {
        LangPatchIsSafe(t, w, code, v);
      }
      assert AllEnd(after) ==> EveryChainEnds(after, w);
    }
  }

  /** Under "en" the two redirects are recorded without harm; patching the code to "fr" makes them lead to each other. */
  lemma LangPatchLoops(t: Tables, w: Uuid, i: Uuid, j: Uuid)
    requires EveryChainEnds(t, w) && w in t.websites && t.websites[w].lang == "en" && i !in t.redirects && j !in t.redirects && i != j
    requires Redirects.AnswerFor(t, w, "/en/a").None? && Redirects.AnswerFor(t, w, "/en/b").None?
    ensures var one := Redirects.Record(t, w, "/en/a", "/en/b", "moved_301", i).0;
      var two := Redirects.Record(one, w, "/en/b", "/en/a", "moved_301", j).0;
      EveryChainEnds(two, w) && !Ends(SiteHistory.PatchLangCode(two, w, "fr"), w, "/en/a")
  {
    var a, b := "/en/a", "/en/b";
    Prefixes();
    hide Hop, IsLangPrefixed, EveryChainEnds, Next, Ends, NormalForm;
    var one := Redirects.Record(t, w, a, b, "moved_301", i).0;
    var two := Redirects.Record(one, w, b, a, "moved_301", j).0;
    var there, back := Redirect(w, a, Moved301, Some(b), true), Redirect(w, b, Moved301, Some(a), true);
    Recorded(t, w, a, b, i);
    Unanswered(t, one, i, there, b);
    Recorded(one, w, b, a, j);
    RecordIsSafe(t, w, a, b, "moved_301", i, w);
    RecordIsSafe(one, w, b, a, "moved_301", j, w);
    var after := SiteHistory.PatchLangCode(two, w, "fr");
    PatchedLang(two, w, "fr");
    hide SiteHistory.PatchLangCode, Redirects.Record;
    AnswersWhere(t, one, two, after, w, i, j);
    LoopOfTwo(after, w, a, b);
  }

  lemma Prefixes()
    ensures Hop("/en/a", "en").Some? && Hop("/en/b", "en").Some? && Hop("/en/a", "fr").None? && Hop("/en/b", "fr").None?
  {
    var a, b := "/en/a", "/en/b";
    assert a[1..] == "en/a" && b[1..] == "en/b" && "en/a"[..2] == "en" && "en/b"[..2] == "en";
  }

  lemma Recorded(t: Tables, w: Uuid, from: string, to: string, id: Uuid)
    requires w in t.websites && id !in t.redirects && Redirects.AnswerFor(t, w, from).None? && Absolute(from) && Absolute(to)
    ensures Redirects.Record(t, w, from, to, "moved_301", id).0
      == t.(redirects := t.redirects[id := Redirect(w, from, Moved301, Some(to), true)])
  {
    assert Redirects.AnswerIds(t, w, from) == {};
    assert forall r :: r in t.redirects && t.redirects[r].live && t.redirects[r].website == w && t.redirects[r].urlFrom == from ==>
      r in Redirects.AnswerIds(t, w, from);
  }

  lemma Unanswered(t: Tables, after: Tables, id: Uuid, row: Redirect, url: string)
    requires after.redirects == t.redirects[id := row] && id !in t.redirects && row.urlFrom != url
    ensures Redirects.AnswerFor(after, row.website, url) == Redirects.AnswerFor(t, row.website, url)
  {
    assert Redirects.AnswerIds(after, row.website, url) == Redirects.AnswerIds(t, row.website, url);
  }

  lemma AnswersWhere(t: Tables, one: Tables, two: Tables, after: Tables, w: Uuid, i: Uuid, j: Uuid)
    requires i !in t.redirects && j !in t.redirects && i != j && LangOf(after, w) == "fr"
    requires Redirects.AnswerFor(t, w, "/en/a").None? && Redirects.AnswerFor(t, w, "/en/b").None?
    requires one.redirects == t.redirects[i := Redirect(w, "/en/a", Moved301, Some("/en/b"), true)]
    requires two.redirects == one.redirects[j := Redirect(w, "/en/b", Moved301, Some("/en/a"), true)]
    requires after.redirects == two.redirects && Hop("/en/a", "fr").None? && Hop("/en/b", "fr").None?
    ensures Next(after, w, "/en/a") == Some("/en/b") && Next(after, w, "/en/b") == Some("/en/a")
  {
    hide Hop;
    assert Redirects.AnswerIds(t, w, "/en/a") == {} && Redirects.AnswerIds(t, w, "/en/b") == {};
    assert Redirects.AnswerIds(after, w, "/en/a") == {i} && Redirects.AnswerIds(after, w, "/en/b") == {j};
  }

  // ---- whole runs ----

  lemma EventEnds(t: Tables, e: SiteHistory.Event, base: Uuid)
    requires AllEnd(t) && Owned(t) && Redirects.OneAnswerPerPath(t) && Fresh(t, base)
    ensures AllEnd(SiteHistory.Next(t, e, base)) <==> Careful(t, e, base)
  {
    hide AllEnd, Owned, Redirects.OneAnswerPerPath, Fresh, SiteHistory.PatchLangCode, Ranked;
    if WritesRedirects(e) {
      hide SiteHistory.Next;
      WritesEnd(t, e, base);
    } else if e.PatchLang? {
      LangEnds(t, e.siteId, e.code);
    } else {
      hide SiteHistory.Next;
      OtherEventsEnd(t, e, base);
    }
  }

  lemma {:induction false} RunIsOwned(init: SiteHistory.State, run: SiteHistory.Run)
    requires Owned(init.tables)
    ensures Owned(SiteHistory.After(init, run).tables)
  {
    hide Owned, SiteHistory.Next, SiteHistory.Draws;
    match run
    case Begin =>
    case Then(before, e) =>
      RunIsOwned(init, before);
      var s := SiteHistory.After(init, before);
      if WritesRedirects(e) {
        WritesOwned(s.tables, e, s.next);
      } else if e.PatchLang? {
        LangOwned(s.tables, e, s.next);
      } else {
        OtherEvents(s.tables, e, s.next);
        StillOwned(s.tables, SiteHistory.Next(s.tables, e, s.next));
      }
  }

  lemma LangOwned(t: Tables, e: SiteHistory.Event, base: Uuid)
    requires Owned(t) && e.PatchLang?
    ensures Owned(SiteHistory.Next(t, e, base))
  {
  }

  lemma StillOwned(t: Tables, after: Tables)
    requires Owned(t) && after.redirects == t.redirects && t.websites.Keys <= after.websites.Keys
    ensures Owned(after)
  {
  }

  /** From empty tables: no chain of any website loops at any moment of the run, if and only if every write was careful. */
  lemma {:induction false} CarefulNeverLoops(run: SiteHistory.Run)
    ensures CarefulRun(SiteHistory.EMPTY, run) <==> NeverLoops(SiteHistory.EMPTY, run)
  {
    var init := SiteHistory.EMPTY;
    hide AllEnd, Owned, SiteHistory.Next, SiteHistory.Draws, Careful;
    match run
    case Begin => NothingLoops();
    case Then(before, e) =>
      CarefulNeverLoops(before);
      var s := SiteHistory.After(init, before);
      NothingLoops();
      RunIsOwned(init, before);
      SiteHistory.EmptyIsWhole();
      SiteHistory.RunKeepsTables(init, before);
      if NeverLoops(init, before) {
        assert AllEnd(s.tables);
        EventEnds(s.tables, e, s.next);
      }
  }

  lemma NothingLoops()
    ensures AllEnd(SiteHistory.EMPTY.tables) && Owned(SiteHistory.EMPTY.tables)
  {
    forall w ensures EveryChainEnds(SiteHistory.EMPTY.tables, w) {
      NoRowsEnd(SiteHistory.EMPTY.tables, w);
    }
  }
}
