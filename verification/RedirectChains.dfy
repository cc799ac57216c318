/**
 Which writes keep every redirect chain ending: each verb that lands a redirect, the rename back, and
 whole runs.
 */
module RedirectChains {
  import opened Common
  import opened Schema
  import opened Text
  import opened LangMatcher
  import opened Rewriting
  import opened Routing
  import Pages
  import Redirects

  /** A live row joins the redirect table, at a path of its website that has no answer. */
  ghost predicate Lands(t: Tables, t': Tables, id: Uuid, row: Redirect) {
    && t'.redirects == t.redirects[id := row] && row.live && (id in t.redirects ==> !t.redirects[id].live)
    && Redirects.AnswerFor(t, row.website, row.urlFrom).None?
    && forall w :: LangOf(t', w) == LangOf(t, w)
  }

  /** The chain from the row's target does not pass its source: what a writer can look up before writing. */
  ghost predicate Harmless(t: Tables, w: Uuid, row: Redirect) {
    SendsOn(t, w, row) ==> !Reaches(t, w, OrEmpty(row.urlTo), row.urlFrom)
  }

  /** A landed row changes where its own path leads, if it sends on, and nothing else. */
  lemma LandedRow(t: Tables, t': Tables, w: Uuid, id: Uuid, row: Redirect, p: string)
    requires Lands(t, t', id, row)
    ensures Next(t', w, p) == if SendsOn(t, w, row) && p == row.urlFrom then row.urlTo else Next(t, w, p)
  {
    hide Hop;
    var before, after := Redirects.AnswerIds(t, w, p), Redirects.AnswerIds(t', w, p);
    assert Redirects.AnswerIds(t, row.website, row.urlFrom) == {};
    assert after == if row.website == w && p == row.urlFrom then {id} else before;
  }

  /** The one path a redirect write concerns decides: every chain still ends exactly when the row is harmless. */
  lemma LandedRowIsSafe(t: Tables, t': Tables, w: Uuid, id: Uuid, row: Redirect)
    requires Lands(t, t', id, row) && EveryChainEnds(t, w)
    ensures EveryChainEnds(t', w) <==> Harmless(t, w, row)
  {
    hide Hop, Next, EveryChainEnds, Reaches;
    var a := row.urlFrom;
    forall p ensures Next(t', w, p) == if SendsOn(t, w, row) && p == a then row.urlTo else Next(t, w, p) {
      LandedRow(t, t', w, id, row, p);
    }
    NewStepIsSafe(t, t', w, a);
    if !SendsOn(t, w, row) {
      NewStepIsSafe(t, t, w, a);
    }
  }

  // ---- the verbs ----

  lemma FreeHasNoAnswer(t: Tables, id: Uuid, w: Uuid, urlFrom: string)
    requires !Pages.RedirectTaken(t, id, w, urlFrom)
    ensures id !in t.redirects && Redirects.AnswerFor(t, w, urlFrom).None?
  {
    assert Redirects.AnswerIds(t, w, urlFrom) == {};
  }

  /** An accepted create keeps every chain ending exactly when its row is harmless. */
  lemma CreateIsSafe(t: Tables, w: Uuid, kind: string, urlFrom: string, urlTo: Option<string>, newId: Uuid, v: Uuid)
    requires EveryChainEnds(t, v) && Redirects.Create(t, w, kind, urlFrom, urlTo, newId).1.Ok?
    ensures var after := Redirects.Create(t, w, kind, urlFrom, urlTo, newId).0;
      newId in after.redirects && (EveryChainEnds(after, v) <==> Harmless(t, v, after.redirects[newId]))
  {
    hide Redirects.ValidateRedirect, EveryChainEnds, Harmless, Redirects.AnswerFor, Pages.RedirectTaken, Trim;
    var after := Redirects.Create(t, w, kind, urlFrom, urlTo, newId).0;
    FreeHasNoAnswer(t, newId, w, Trim(urlFrom));
    LandedRowIsSafe(t, after, v, newId, after.redirects[newId]);
  }

  /** A recording keeps every chain ending exactly when it writes nothing, or a harmless row. */
  lemma RecordIsSafe(t: Tables, w: Uuid, urlFrom: string, urlTo: string, kind: string, newId: Uuid, v: Uuid)
    requires EveryChainEnds(t, v)
    ensures var after := Redirects.Record(t, w, urlFrom, urlTo, kind, newId).0;
      EveryChainEnds(after, v) <==> (after == t || (newId in after.redirects && Harmless(t, v, after.redirects[newId])))
  {
    hide Redirects.ValidateRedirect, EveryChainEnds, Harmless, Redirects.AnswerFor, Pages.RedirectTaken;
    var after := Redirects.Record(t, w, urlFrom, urlTo, kind, newId).0;
    if after != t {
      FreeHasNoAnswer(t, newId, w, urlFrom);
      LandedRowIsSafe(t, after, v, newId, after.redirects[newId]);
    }
  }

  /** Only the redirect table and the website's language matter to a chain. */
  lemma SameChains(t: Tables, t': Tables, w: Uuid)
    requires t'.redirects == t.redirects && LangOf(t', w) == LangOf(t, w) && EveryChainEnds(t, w)
    ensures EveryChainEnds(t', w)
  {
    forall p ensures Next(t', w, p) == Next(t, w, p) {
      assert Redirects.AnswerIds(t', w, p) == Redirects.AnswerIds(t, w, p);
    }
    hide Next, EveryChainEnds;
    NewStepIsSafe(t, t', w, "");
    NewStepIsSafe(t, t, w, "");
  }

  lemma MovedKeepsLangs(t: Tables, id: Uuid, url: string)
    requires id in t.pages
    ensures var moved := Pages.Moved(t, id, url); moved.redirects == t.redirects && forall w :: LangOf(moved, w) == LangOf(t, w)
  {
  }

  /** A rename keeps every chain ending exactly when it leaves no redirect, or a harmless one. */
  lemma RenameIsSafe(t: Tables, id: Uuid, url: string, redirect: Option<int>, redirectId: Uuid, v: Uuid)
    requires EveryChainEnds(t, v)
    ensures var after := Pages.RenamePage(t, id, url, redirect, redirectId).0;
      EveryChainEnds(after, v)
      <==> (after.redirects == t.redirects || (redirectId in after.redirects && Harmless(t, v, after.redirects[redirectId])))
  {
    hide Pages.ValidateUrl, Pages.UrlOccupied, Pages.Moved, Pages.RedirectTaken, EveryChainEnds, Harmless, Redirects.AnswerFor;
    var after := Pages.RenamePage(t, id, url, redirect, redirectId).0;
    if LivePage(t, id) {
      MovedKeepsLangs(t, id, url);
    }
    if after.redirects == t.redirects {
      SameChains(t, after, v);
    } else {
      var moved, page := Pages.Moved(t, id, url), t.pages[id];
      FreeHasNoAnswer(moved, redirectId, page.website.value, page.content.url);
      SameAnswer(t, moved, page.website.value, page.content.url);
      LandedRowIsSafe(t, after, v, redirectId, after.redirects[redirectId]);
    }
  }

  lemma SameAnswer(t: Tables, t': Tables, w: Uuid, url: string)
    requires t'.redirects == t.redirects
    ensures Redirects.AnswerFor(t', w, url) == Redirects.AnswerFor(t, w, url)
  {
    assert Redirects.AnswerIds(t', w, url) == Redirects.AnswerIds(t, w, url);
  }

  /** A dead row sends nobody on. */
  lemma DeletedRow(t: Tables, id: Uuid, w: Uuid, p: string)
    requires Redirects.OneAnswerPerPath(t) && Redirects.Delete(t, id).1.Ok?
    ensures id in t.redirects
    ensures var after, row := Redirects.Delete(t, id).0, t.redirects[id];
      && Next(after, w, p) == (if SendsOn(t, w, row) && p == row.urlFrom then None else Next(t, w, p))
      && (w == row.website && p == row.urlFrom ==> Redirects.AnswerFor(after, w, p).None?)
  {
    hide Hop;
    var after, row := Redirects.Delete(t, id).0, t.redirects[id];
    if w == row.website && p == row.urlFrom {
      assert Redirects.AnswerIds(t, w, p) == {id};
      assert Redirects.AnswerIds(after, w, p) == {};
    } else {
      assert Redirects.AnswerIds(after, w, p) == Redirects.AnswerIds(t, w, p);
    }
  }

  /** Deleting a redirect breaks no chain. */
  lemma DeleteIsSafe(t: Tables, id: Uuid, v: Uuid)
    requires Redirects.OneAnswerPerPath(t) && EveryChainEnds(t, v)
    ensures EveryChainEnds(Redirects.Delete(t, id).0, v)
  {
    hide Next, EveryChainEnds, Redirects.OneAnswerPerPath;
    var after := Redirects.Delete(t, id).0;
    if Redirects.Delete(t, id).1.Ok? {
      var row := t.redirects[id];
      forall p ensures Next(after, v, p) == if SendsOn(t, v, row) && p == row.urlFrom then None else Next(t, v, p) {
        DeletedRow(t, id, v, p);
      }
      NewStepIsSafe(t, after, v, row.urlFrom);
      if !SendsOn(t, v, row) {
        NewStepIsSafe(t, t, v, row.urlFrom);
      }
    }
  }

  /** A patch keeps every chain ending exactly when its new row is harmless beside the other rows. */
  lemma PatchIsSafe(t: Tables, id: Uuid, p: Redirects.Patch, v: Uuid)
    requires Redirects.OneAnswerPerPath(t) && EveryChainEnds(t, v) && Redirects.PatchRedirect(t, id, p).1.Ok?
    ensures var after := Redirects.PatchRedirect(t, id, p).0;
      id in after.redirects && (EveryChainEnds(after, v) <==> Harmless(Redirects.Delete(t, id).0, v, after.redirects[id]))
  {
    hide EveryChainEnds, Harmless, Redirects.AnswerFor, Redirects.ValidateRedirect;
    var others, after := Redirects.Delete(t, id).0, Redirects.PatchRedirect(t, id, p).0;
    PatchLands(t, id, p);
    hide Redirects.PatchRedirect, Redirects.Delete, Lands, Redirects.OneAnswerPerPath;
    DeleteIsSafe(t, id, v);
    LandedRowIsSafe(others, after, v, id, after.redirects[id]);
  }

  lemma PatchLands(t: Tables, id: Uuid, p: Redirects.Patch)
    requires Redirects.PatchRedirect(t, id, p).1.Ok?
    ensures var after := Redirects.PatchRedirect(t, id, p).0;
      id in after.redirects && Lands(Redirects.Delete(t, id).0, after, id, after.redirects[id])
  {
    hide Redirects.ValidateRedirect;
    var others, after := Redirects.Delete(t, id).0, Redirects.PatchRedirect(t, id, p).0;
    var row := after.redirects[id];
    assert Redirects.AnswerIds(others, row.website, row.urlFrom) == {};
    assert after.redirects == others.redirects[id := row];
  }

  // ---- rename and rename back ----

  /** A rename that is accepted and leaves a redirect. */
  ghost predicate RenameAccepted(t: Tables, id: Uuid, url: string, code: int, redirectId: Uuid, w: Uuid) {
    && w in t.websites && LivePage(t, id) && t.pages[id].website == Some(w)
    && Pages.ValidateUrl(url).Ok? && !Pages.UrlOccupied(t, id, url) && Pages.RenameKind(code).Some?
    && !Pages.RedirectTaken(t, redirectId, w, t.pages[id].content.url)
  }

  lemma RenameLands(t: Tables, id: Uuid, url: string, code: int, redirectId: Uuid, w: Uuid)
    requires RenameAccepted(t, id, url, code, redirectId, w)
    ensures var after := Pages.RenamePage(t, id, url, Some(code), redirectId).0;
      && Lands(t, after, redirectId, Redirect(w, t.pages[id].content.url, Pages.RenameKind(code).value, Some(url), true))
      && after.pages == t.pages[id := Pages.WithUrl(t.pages[id], url)] && LangOf(after, w) == LangOf(t, w)
  {
    hide Pages.Moved, Pages.ValidateUrl, Pages.UrlOccupied, Pages.RedirectTaken;
    var moved, from := Pages.Moved(t, id, url), t.pages[id].content.url;
    MovedKeepsLangs(t, id, url);
    FreeHasNoAnswer(t, redirectId, w, from);
    MovedIs(t, id, url);
    SameTaken(t, moved, redirectId, w, from);
  }

  lemma MovedIs(t: Tables, id: Uuid, url: string)
    requires id in t.pages
    ensures Pages.Moved(t, id, url).pages == t.pages[id := Pages.WithUrl(t.pages[id], url)]
    ensures Pages.Moved(t, id, url).websites.Keys == t.websites.Keys
  {
  }

  lemma SameTaken(t: Tables, t': Tables, id: Uuid, w: Uuid, url: string)
    requires t'.redirects == t.redirects
    ensures Pages.RedirectTaken(t', id, w, url) == Pages.RedirectTaken(t, id, w, url)
  {
  }

  /** A page at `a` renamed to `b` and back, each time leaving a redirect of either code. */
  ghost predicate ThereAndBack(t: Tables, id: Uuid, w: Uuid, b: string, c1: int, c2: int, r1: Uuid, r2: Uuid, back: Tables) {
    && id in t.pages && RenameAccepted(t, id, b, c1, r1, w) && t.pages[id].content.url != b
    && var there := Pages.RenamePage(t, id, b, Some(c1), r1).0;
       RenameAccepted(there, id, t.pages[id].content.url, c2, r2, w)
       && back == Pages.RenamePage(there, id, t.pages[id].content.url, Some(c2), r2).0
  }

  lemma BackState(t: Tables, id: Uuid, w: Uuid, b: string, c1: int, c2: int, r1: Uuid, r2: Uuid, back: Tables)
    returns (there: Tables, away: Redirect, home: Redirect)
    requires ThereAndBack(t, id, w, b, c1, c2, r1, r2, back)
    ensures var a := t.pages[id].content.url;
      && Lands(t, there, r1, away) && away.website == w && away.urlFrom == a && away.urlTo == Some(b) && !away.kind.Gone404?
      && Lands(there, back, r2, home) && home.website == w && home.urlFrom == b && home.urlTo == Some(a) && !home.kind.Gone404?
      && Pages.ValidateUrl(a).Ok? && Pages.ValidateUrl(b).Ok? && a != b
    ensures LivePage(back, id) && back.pages[id].content == t.pages[id].content
  {
    var a := t.pages[id].content.url;
    there := Pages.RenamePage(t, id, b, Some(c1), r1).0;
    away := Redirect(w, a, Pages.RenameKind(c1).value, Some(b), true);
    home := Redirect(w, b, Pages.RenameKind(c2).value, Some(a), true);
    RenameLands(t, id, b, c1, r1, w);
    RenameLands(there, id, a, c2, r2, w);
    hide Lands, Pages.RenamePage;
  }

  /** Of the urls the page verbs accept, the rows above the table take exactly those under the language prefix. */
  lemma ValidUrlHop(url: string, lang: string)
    requires Pages.ValidateUrl(url).Ok?
    ensures Hop(url, lang).Some? <==> IsLangPrefixed(url, lang)
  {
  }

  lemma TwoValidUrls(t: Tables, id: Uuid, w: Uuid, b: string, c1: int, c2: int, r1: Uuid, r2: Uuid, back: Tables)
    requires ThereAndBack(t, id, w, b, c1, c2, r1, r2, back)
    ensures var a, lang := t.pages[id].content.url, LangOf(t, w);
      (Hop(a, lang).Some? <==> IsLangPrefixed(a, lang)) && (Hop(b, lang).Some? <==> IsLangPrefixed(b, lang))
  {
    var there, away, home := BackState(t, id, w, b, c1, c2, r1, r2, back);
    hide Hop, ThereAndBack, IsLangPrefixed;
    ValidUrlHop(t.pages[id].content.url, LangOf(t, w));
    ValidUrlHop(b, LangOf(t, w));
  }

  /** Where every path leads after the rename back: the two urls to each other, unless a language row takes them first. */
  lemma BackSteps(t: Tables, id: Uuid, w: Uuid, b: string, c1: int, c2: int, r1: Uuid, r2: Uuid, back: Tables, p: string)
    requires ThereAndBack(t, id, w, b, c1, c2, r1, r2, back)
    ensures var a, lang := t.pages[id].content.url, LangOf(t, w);
      Next(back, w, p) == if p == a && Hop(a, lang).None? then Some(b)
                          else if p == b && Hop(b, lang).None? then Some(a) else Next(t, w, p)
  {
    var there, away, home := BackState(t, id, w, b, c1, c2, r1, r2, back);
    hide Hop, ThereAndBack, Next;
    LandedRow(t, there, w, r1, away, p);
    LandedRow(there, back, w, r2, home, p);
  }

  /**
   After a rename away and back every chain still ends exactly when a language row takes one of the
   two urls before the redirect table is asked, and the other did not already lead back to it.
   */
  lemma RenameBackIff(t: Tables, id: Uuid, w: Uuid, b: string, c1: int, c2: int, r1: Uuid, r2: Uuid, back: Tables)
    requires EveryChainEnds(t, w) && ThereAndBack(t, id, w, b, c1, c2, r1, r2, back)
    ensures var a, lang := t.pages[id].content.url, LangOf(t, w);
      EveryChainEnds(back, w)
      <==> if IsLangPrefixed(a, lang) then IsLangPrefixed(b, lang) || !Reaches(t, w, a, b)
           else IsLangPrefixed(b, lang) && !Reaches(t, w, b, a)
  {
    hide Hop, Next, EveryChainEnds, Reaches, RenameAccepted, Pages.RenamePage, IsLangPrefixed;
    var a, lang := t.pages[id].content.url, LangOf(t, w);
    forall p ensures Next(back, w, p) == if p == a && Hop(a, lang).None? then Some(b)
      else if p == b && Hop(b, lang).None? then Some(a) else Next(t, w, p)
    {
      BackSteps(t, id, w, b, c1, c2, r1, r2, back, p);
    }
    TwoValidUrls(t, id, w, b, c1, c2, r1, r2, back);
    if Hop(a, lang).None? && Hop(b, lang).None? {
      RenameBackLoops(t, id, w, b, c1, c2, r1, r2, back);
      assert EveryChainEnds(back, w) ==> Ends(back, w, a) by { EveryEnds(back, w, a); }
    } else {
      var from := if Hop(a, lang).None? then a else b;
      NewStepIsSafe(t, back, w, from);
      NewStepIsSafe(t, t, w, from);
    }
  }

  lemma EveryEnds(t: Tables, w: Uuid, p: string)
    ensures EveryChainEnds(t, w) ==> Ends(t, w, p)
  {
  }

  /** At urls no language row takes, the page can no longer be reached at either by following redirects. */
  lemma RenameBackLoops(t: Tables, id: Uuid, w: Uuid, b: string, c1: int, c2: int, r1: Uuid, r2: Uuid, back: Tables)
    requires ThereAndBack(t, id, w, b, c1, c2, r1, r2, back)
    requires !IsLangPrefixed(t.pages[id].content.url, LangOf(t, w)) && !IsLangPrefixed(b, LangOf(t, w))
    ensures LivePage(back, id) && back.pages[id].content == t.pages[id].content
    ensures !Ends(back, w, t.pages[id].content.url) && !Ends(back, w, b)
  {
    hide Hop, Next, Ends, IsLangPrefixed;
    var there, away, home := BackState(t, id, w, b, c1, c2, r1, r2, back);
    var a := t.pages[id].content.url;
    TwoValidUrls(t, id, w, b, c1, c2, r1, r2, back);
    BackSteps(t, id, w, b, c1, c2, r1, r2, back, a);
    BackSteps(t, id, w, b, c1, c2, r1, r2, back, b);
    LoopOfTwo(back, w, a, b);
  }

  lemma LoopOfTwo(t: Tables, w: Uuid, a: string, b: string)
    requires Next(t, w, a) == Some(b) && Next(t, w, b) == Some(a)
    ensures !Ends(t, w, a) && !Ends(t, w, b)
  {
    hide Next;
    assert Leads(t, w, a, b, 1) && Leads(t, w, b, a, 1);
    assert Leads(t, w, a, a, 2) && Leads(t, w, b, b, 2);
    forall k ensures !Settles(t, w, a, k) && !Settles(t, w, b, k) {
      CycleNeverSettles(t, w, a, 2, k);
      CycleNeverSettles(t, w, b, 2, k);
    }
  }
}
