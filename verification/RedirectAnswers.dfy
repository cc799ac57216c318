/**
 What a person is answered at the path of a redirect that one of the verbs has left there: the status
 its kind was asked for by, and the target; and which refusal the verbs give.
 */
module RedirectAnswers {
  import opened Common
  import opened Schema
  import opened Text
  import opened Rewriting
  import opened Routing
  import opened LangMatcher
  import Pages
  import Redirects
  import RedirectChains
  import RedirectProofs

  /** The action a kind, named by its text, asks for. */
  predicate Asks(kind: string, target: Option<string>, action: Action) {
    && kind in {"moved_301", "found_302", "alias_308", "gone_404"} && (kind != "gone_404" ==> target.Some?)
    && (kind == "moved_301" ==> action == Reroute(301, target.value))
    && (kind == "found_302" ==> action == Reroute(302, target.value))
    && (kind == "alias_308" ==> action == Reroute(308, target.value))
    && (kind == "gone_404" ==> action == Missing)
  }

  /** What a person's GET of the path is answered. */
  function Asked(t: Tables, w: Uuid, path: string, now: int): Action {
    PublicResolve(t, w, Some(path), "GET", false, now).action
  }

  lemma AnsweredByRow(t: Tables, w: Uuid, path: string, now: int)
    requires Absolute(path) && Hop(path, LangOf(t, w)).None? && Redirects.AnswerFor(t, w, path).Some?
    ensures Asked(t, w, path, now) == TableAction(Redirects.AnswerFor(t, w, path).value)
  {
    hide PublicResolve, Hop;
    GetAnswer(t, w, path, now);
  }

  lemma AsksFor(kind: string, urlFrom: string, urlTo: Option<string>, row: Redirect)
    requires Redirects.ValidateRedirect(kind, urlFrom, urlTo).Ok?
    requires row.kind == Redirects.ValidateRedirect(kind, urlFrom, urlTo).value && row.urlTo == urlTo
    ensures Asks(kind, urlTo, TableAction(row))
  {
    hide Redirects.ParamParityHolds;
  }

  /** A created redirect answers at its trimmed source, with the status of the kind it was created as. */
  lemma CreatedAnswer(t: Tables, w: Uuid, kind: string, urlFrom: string, urlTo: Option<string>, newId: Uuid, now: int)
    requires Redirects.Create(t, w, kind, urlFrom, urlTo, newId).1.Ok? && Hop(Trim(urlFrom), LangOf(t, w)).None?
    ensures Asks(kind, urlTo, Asked(Redirects.Create(t, w, kind, urlFrom, urlTo, newId).0, w, Trim(urlFrom), now))
  {
    var after := Redirects.Create(t, w, kind, urlFrom, urlTo, newId).0;
    assert newId !in t.redirects && LangOf(after, w) == LangOf(t, w);
    Redirects.ValidIsAbsolute(kind, urlFrom, urlTo);
    TrimKeepsAbsolute(urlFrom);
    RedirectProofs.CreateAnswers(t, w, kind, urlFrom, urlTo, newId, w, Trim(urlFrom));
    hide Redirects.ValidateRedirect, Redirects.Create, Asked, Hop, Trim, TableAction, Asks;
    AnsweredByRow(after, w, Trim(urlFrom), now);
    AsksFor(kind, urlFrom, urlTo, Redirects.AnswerFor(after, w, Trim(urlFrom)).value);
  }

  /** So does a recorded one, unless the path had an answer already. */
  lemma RecordedAnswer(t: Tables, w: Uuid, urlFrom: string, urlTo: string, kind: string, newId: Uuid, now: int)
    requires newId !in t.redirects && Redirects.Record(t, w, urlFrom, urlTo, kind, newId).1.Ok?
    requires Redirects.AnswerFor(t, w, urlFrom).None? && Hop(urlFrom, LangOf(t, w)).None?
    ensures Asks(kind, if kind == "gone_404" then None else Some(urlTo),
                 Asked(Redirects.Record(t, w, urlFrom, urlTo, kind, newId).0, w, urlFrom, now))
  {
    var after, target := Redirects.Record(t, w, urlFrom, urlTo, kind, newId).0, if kind == "gone_404" then None else Some(urlTo);
    RedirectProofs.NoAnswerIs(t, w, urlFrom);
    Redirects.ValidIsAbsolute(kind, urlFrom, target);
    hide Redirects.ValidateRedirect, Redirects.AnswerFor;
    var row := after.redirects[newId];
    RedirectProofs.AddedAnswer(t, after, newId, row, w, urlFrom);
    assert LangOf(after, w) == LangOf(t, w);
    hide Redirects.Record, Asked, Hop, TableAction, Asks;
    AnsweredByRow(after, w, urlFrom, now);
    AsksFor(kind, urlFrom, target, row);
  }

  /** A rename that leaves a redirect sends the old url to the new one with the status that was asked for. */
  lemma RenamedAnswer(t: Tables, id: Uuid, url: string, code: int, redirectId: Uuid, w: Uuid, now: int)
    requires Pages.RenamePage(t, id, url, Some(code), redirectId).1.Ok? && t.pages[id].website == Some(w)
    requires redirectId !in t.redirects && Redirects.AnswerFor(t, w, t.pages[id].content.url).None?
    requires Absolute(t.pages[id].content.url) && Hop(t.pages[id].content.url, LangOf(t, w)).None?
    ensures code in {301, 302}
    ensures Asked(Pages.RenamePage(t, id, url, Some(code), redirectId).0, w, t.pages[id].content.url, now) == Reroute(code, url)
  {
    var from, after := t.pages[id].content.url, Pages.RenamePage(t, id, url, Some(code), redirectId).0;
    RedirectProofs.NoAnswerIs(t, w, from);
    hide Pages.ValidateUrl, Pages.UrlOccupied, Pages.Moved, Redirects.AnswerFor, PublicResolve, Hop;
    RedirectChains.MovedKeepsLangs(t, id, url);
    var row := after.redirects[redirectId];
    assert row.urlTo == Some(url) && row.kind == (if code == 301 then Moved301 else Found302);
    assert after.redirects == t.redirects[redirectId := row] && LangOf(after, w) == LangOf(t, w);
    hide Pages.RenamePage;
    RedirectProofs.AddedAnswer(t, after, redirectId, row, w, from);
    AnsweredByRow(after, w, from, now);
  }

  /** A patched redirect answers at its path as patched: under the kind the patch names, or with the status it had. */
  lemma PatchedAnswer(t: Tables, id: Uuid, p: Redirects.Patch, now: int)
    requires Redirects.OneAnswerPerPath(t) && Redirects.PatchRedirect(t, id, p).1.Ok?
    ensures id in t.redirects
    ensures var after, row := Redirects.PatchRedirect(t, id, p).0, t.redirects[id];
      var from := if p.urlFrom.Some? then p.urlFrom.value else row.urlFrom;
      var to := if p.urlTo.Some? then p.urlTo.value else row.urlTo;
      Hop(from, LangOf(t, row.website)).None? ==>
        if p.kind.Some? then Asks(p.kind.value, to, Asked(after, row.website, from, now))
        else Asks(Redirects.KindText(row.kind), to, Asked(after, row.website, from, now))
  {
    var after, row := Redirects.PatchRedirect(t, id, p).0, t.redirects[id];
    var from := if p.urlFrom.Some? then p.urlFrom.value else row.urlFrom;
    var to := if p.urlTo.Some? then p.urlTo.value else row.urlTo;
    var kind := if p.kind.Some? then p.kind.value else Redirects.KindText(row.kind);
    Redirects.KindRoundTrip(row.kind);
    Redirects.ValidIsAbsolute(kind, from, to);
    RedirectProofs.PatchMovesAnswer(t, id, p, row.website, from);
    hide Redirects.ValidateRedirect, Redirects.AnswerFor, Redirects.OneAnswerPerPath, Hop, PublicResolve, TableAction, Asks;
    assert LangOf(after, row.website) == LangOf(t, row.website);
    if Hop(from, LangOf(t, row.website)).None? {
      AnsweredByRow(after, row.website, from, now);
      AsksFor(kind, from, to, after.redirects[id]);
    }
  }

  // ---- refusals ----

  /** Why a redirect is not valid. */
  lemma ValidationRefusals(kind: string, urlFrom: string, urlTo: Option<string>)
    requires Redirects.ValidateRedirect(kind, urlFrom, urlTo).Err?
    ensures var error := Redirects.ValidateRedirect(kind, urlFrom, urlTo).error;
      if !Absolute(urlFrom) || kind !in {"moved_301", "found_302", "alias_308", "gone_404"} then error == Redirects.InvalidInput
      else if kind == "gone_404" then urlTo.Some? && error == Redirects.InvalidInput
      else if urlTo.None? then error == Redirects.TargetRequired
      else if kind == "alias_308" then error == Redirects.ParamParity
      else !Absolute(urlTo.value) && error == Redirects.InvalidInput
  {
    hide Redirects.ParamParityHolds;
  }

  /** Which refusal a create gives, and that it writes nothing. */
  lemma CreateRefusals(t: Tables, w: Uuid, kind: string, urlFrom: string, urlTo: Option<string>, newId: Uuid)
    requires newId !in t.redirects && Redirects.Create(t, w, kind, urlFrom, urlTo, newId).1.Err?
    ensures var (after, r) := Redirects.Create(t, w, kind, urlFrom, urlTo, newId);
      && after == t
      && if Redirects.ValidateRedirect(kind, urlFrom, urlTo).Err? then r.error == Redirects.ValidateRedirect(kind, urlFrom, urlTo).error
         else if Redirects.AnswerFor(t, w, Trim(urlFrom)).Some? then r.error == Redirects.SpecificityConflict
         else r.error == Redirects.ForeignKey && w !in t.websites
  {
    hide Redirects.ValidateRedirect, Trim;
    RedirectProofs.NoAnswerIs(t, w, Trim(urlFrom));
  }

  /** A recording is refused only for an invalid redirect or a missing website, and a refusal writes nothing. */
  lemma RecordRefusals(t: Tables, w: Uuid, urlFrom: string, urlTo: string, kind: string, newId: Uuid)
    requires newId !in t.redirects && Redirects.Record(t, w, urlFrom, urlTo, kind, newId).1.Err?
    ensures var (after, r) := Redirects.Record(t, w, urlFrom, urlTo, kind, newId);
      var valid := Redirects.ValidateRedirect(kind, urlFrom, if kind == "gone_404" then None else Some(urlTo));
      && after == t
      && if valid.Err? then r.error == valid.error
         else r.error == Redirects.ForeignKey && w !in t.websites && Redirects.AnswerFor(t, w, urlFrom).None?
  {
    hide Redirects.ValidateRedirect;
    RedirectProofs.NoAnswerIs(t, w, urlFrom);
  }

  /** A patch is accepted exactly when it names something, its row lives, the result is valid and its path is free or its own. */
  lemma PatchAcceptedIff(t: Tables, id: Uuid, p: Redirects.Patch)
    requires Redirects.OneAnswerPerPath(t)
    ensures var (after, r) := Redirects.PatchRedirect(t, id, p);
      var lives := id in t.redirects && t.redirects[id].live;
      && (r.Err? ==> after == t)
      && (p == Redirects.Patch(None, None, None, false) ==> r == Err(Redirects.InvalidInput))
      && (p != Redirects.Patch(None, None, None, false) && !lives ==> r == Err(Redirects.NotFound))
      && (p != Redirects.Patch(None, None, None, false) && lives ==>
            var row := t.redirects[id];
            var from := if p.urlFrom.Some? then p.urlFrom.value else row.urlFrom;
            var to := if p.urlTo.Some? then p.urlTo.value else row.urlTo;
            var valid := Redirects.ValidateRedirect(if p.kind.Some? then p.kind.value else Redirects.KindText(row.kind), from, to);
            if valid.Err? then r == Err(valid.error)
            else if from != row.urlFrom && Redirects.AnswerFor(t, row.website, from).Some? then r == Err(Redirects.SpecificityConflict)
            else r == Ok(()))
  {
    hide Redirects.ValidateRedirect;
    if id in t.redirects {
      RedirectProofs.NoAnswerIs(t, t.redirects[id].website, if p.urlFrom.Some? then p.urlFrom.value else t.redirects[id].urlFrom);
    }
  }

  /** A delete is accepted exactly for a live row, takes that row out, and touches nothing else. */
  lemma DeleteAcceptedIff(t: Tables, id: Uuid)
    ensures var (after, r) := Redirects.Delete(t, id);
      if id in t.redirects && t.redirects[id].live
      then r == Ok(()) && after == t.(redirects := t.redirects[id := t.redirects[id].(live := false)])
      else r == Err(Redirects.NotFound) && after == t
  {
  }

  /** A create and a recording write one row at most, with the source and target they were given, and touch nothing else. */
  lemma OneRowWritten(t: Tables, w: Uuid, kind: string, urlFrom: string, urlTo: string, newId: Uuid)
    ensures var (after, r) := Redirects.Create(t, w, kind, urlFrom, Some(urlTo), newId);
      r.Ok? ==> (
        && r == Ok(newId) && newId in after.redirects && after == t.(redirects := t.redirects[newId := after.redirects[newId]])
        && var row := after.redirects[newId];
           row.live && row.website == w && row.urlFrom == Trim(urlFrom) && row.urlTo == Some(urlTo))
    ensures var after := Redirects.Record(t, w, urlFrom, urlTo, kind, newId).0;
      after != t ==> (
        && newId in after.redirects && after == t.(redirects := t.redirects[newId := after.redirects[newId]])
        && var row := after.redirects[newId];
           row.live && row.website == w && row.urlFrom == urlFrom && row.urlTo == if kind == "gone_404" then None else Some(urlTo))
  {
    hide Redirects.ValidateRedirect, Trim, Pages.RedirectTaken;
  }

  /** A patch writes the columns it names and keeps the others. */
  lemma PatchStores(t: Tables, id: Uuid, p: Redirects.Patch)
    requires Redirects.PatchRedirect(t, id, p).1.Ok?
    ensures id in t.redirects
    ensures var after, was := Redirects.PatchRedirect(t, id, p).0, t.redirects[id];
      && id in after.redirects && after == t.(redirects := t.redirects[id := after.redirects[id]])
      && var row := after.redirects[id];
         && row.live == was.live && row.website == was.website && (p.kind.None? ==> row.kind == was.kind)
         && row.urlFrom == (if p.urlFrom.Some? then p.urlFrom.value else was.urlFrom)
         && row.urlTo == (if p.urlTo.Some? then p.urlTo.value else was.urlTo)
  {
    hide Redirects.ParamParityHolds;
    Redirects.KindRoundTrip(t.redirects[id].kind);
  }
}
