/**
 What the redirect verbs do to the routing answer at every path.
 */
module RedirectProofs {
  import opened Common
  import opened Schema
  import opened Text
  import opened Redirects

  /** A path without an answer is one no live row of the website holds. */
  lemma NoAnswerIs(t: Tables, w: Uuid, url: string)
    ensures AnswerFor(t, w, url).None? <==>
      !(exists r :: r in t.redirects && t.redirects[r].live && t.redirects[r].website == w && t.redirects[r].urlFrom == url)
  {
    if r :| r in t.redirects && t.redirects[r].live && t.redirects[r].website == w && t.redirects[r].urlFrom == url {
      assert r in AnswerIds(t, w, url);
    }
    if AnswerFor(t, w, url).Some? {
      var r :| r in AnswerIds(t, w, url);
    }
  }

  lemma AddedAnswer(t: Tables, after: Tables, id: Uuid, row: Redirect, v: Uuid, url: string)
    requires id !in t.redirects && after.redirects == t.redirects[id := row] && row.live && AnswerFor(t, row.website, row.urlFrom).None?
    ensures AnswerFor(after, v, url) == if v == row.website && url == row.urlFrom then Some(row) else AnswerFor(t, v, url)
  {
    NoAnswerIs(t, row.website, row.urlFrom);
    if v == row.website && url == row.urlFrom {
      assert AnswerIds(after, v, url) == {id};
    } else {
      assert AnswerIds(after, v, url) == AnswerIds(t, v, url);
    }
  }

  /** A redirect is accepted exactly when it is valid, its website exists and its path has no answer; then it is the answer there. */
  lemma CreateAnswers(t: Tables, w: Uuid, kind: string, urlFrom: string, urlTo: Option<string>, newId: Uuid, v: Uuid, url: string)
    requires newId !in t.redirects
    ensures var (after, r) := Create(t, w, kind, urlFrom, urlTo, newId);
      && (r.Ok? <==> ValidateRedirect(kind, urlFrom, urlTo).Ok? && w in t.websites && AnswerFor(t, w, Trim(urlFrom)).None?)
      && (r.Ok? ==> (
            var row := Redirect(w, Trim(urlFrom), ValidateRedirect(kind, urlFrom, urlTo).value, urlTo, true);
            AnswerFor(after, v, url) == if v == w && url == Trim(urlFrom) then Some(row) else AnswerFor(t, v, url)))
  {
    hide ValidateRedirect, Trim;
    NoAnswerIs(t, w, Trim(urlFrom));
    var (after, r) := Create(t, w, kind, urlFrom, urlTo, newId);
    if r.Ok? {
      AddedAnswer(t, after, newId, after.redirects[newId], v, url);
    }
  }

  /** Recording never disturbs an answer that is there, and recording again changes nothing. */
  lemma RecordIsIdempotent(t: Tables, w: Uuid, urlFrom: string, urlTo: string, kind: string, newId: Uuid, otherId: Uuid, otherTo: string)
    requires newId !in t.redirects && Record(t, w, urlFrom, urlTo, kind, newId).1.Ok?
    ensures var after := Record(t, w, urlFrom, urlTo, kind, newId).0;
      && (AnswerFor(t, w, urlFrom).Some? ==> after == t)
      && AnswerFor(after, w, urlFrom).Some?
      && Record(after, w, urlFrom, otherTo, kind, otherId).0 == after
  {
    hide ValidateRedirect;
    NoAnswerIs(t, w, urlFrom);
    var after := Record(t, w, urlFrom, urlTo, kind, newId).0;
    NoAnswerIs(after, w, urlFrom);
    if AnswerFor(t, w, urlFrom).None? {
      AddedAnswer(t, after, newId, after.redirects[newId], w, urlFrom);
    }
  }

  /** Each live row is the answer at its path, so a deleted one leaves its path without an answer. */
  lemma DeleteUnanswers(t: Tables, id: Uuid, v: Uuid, url: string)
    requires OneAnswerPerPath(t) && Delete(t, id).1.Ok?
    ensures id in t.redirects
    ensures AnswerFor(Delete(t, id).0, v, url)
      == if v == t.redirects[id].website && url == t.redirects[id].urlFrom then None else AnswerFor(t, v, url)
  {
  }

  /** A patched row answers at its new path and no longer at its old one; every other path answers as before. */
  lemma PatchMovesAnswer(t: Tables, id: Uuid, p: Patch, v: Uuid, url: string)
    requires OneAnswerPerPath(t) && PatchRedirect(t, id, p).1.Ok?
    ensures id in t.redirects && id in PatchRedirect(t, id, p).0.redirects
    ensures var after, row := PatchRedirect(t, id, p).0, t.redirects[id];
      AnswerFor(after, v, url)
      == if v == row.website && url == PatchedFrom(row, p) then Some(after.redirects[id])
         else if v == row.website && url == row.urlFrom then None
         else AnswerFor(t, v, url)
  {
    hide ValidateRedirect;
    var after, row := PatchRedirect(t, id, p).0, t.redirects[id];
    assert after.redirects == t.redirects[id := after.redirects[id]];
    if v == row.website && url == PatchedFrom(row, p) {
      assert AnswerIds(after, v, url) == {id};
    } else if v == row.website && url == row.urlFrom {
      assert AnswerIds(after, v, url) == {};
    } else {
      assert AnswerIds(after, v, url) == AnswerIds(t, v, url);
    }
  }

  // ---- validation ----

  /** What a validated redirect is: a source on the site, and a target as its kind asks. */
  lemma ValidatedIff(kind: string, urlFrom: string, urlTo: Option<string>)
    ensures ValidateRedirect(kind, urlFrom, urlTo).Ok? <==>
      && Absolute(urlFrom) && ParseKind(kind).Some? && (urlTo.None? <==> ParseKind(kind).value.Gone404?)
      && (ParseKind(kind).value.Moved301? || ParseKind(kind).value.Found302? ==> Absolute(urlTo.value))
      && (ParseKind(kind).value.Alias308? ==> multiset(ParamNames(urlFrom)) == multiset(ParamNames(urlTo.value)))
    ensures ValidateRedirect(kind, urlFrom, urlTo).Ok? ==> ValidateRedirect(kind, urlFrom, urlTo).value == ParseKind(kind).value
  {
    hide ParamNames, ParamParityHolds, ParseKind;
    if urlTo.Some? {
      ParityIsMultiset(urlFrom, urlTo.value);
    }
  }

  // ---- what the trim does to an alias ----

  /** The query of a url: what follows its first question mark. */
  function QueryOf(url: string): Option<string> {
    var n := RunLength(url, BeforeQuery);
    if n == |url| then None else Some(url[n + 1..])
  }

  /** The names of the pieces of a query. */
  function NamesIn(pieces: seq<string>): seq<string> {
    NamesOf(NonEmpty(pieces))
  }

  /** What trimming can lose, read off the url: its query ends in a space inside a parameter that has no value. */
  predicate LosesName(url: string) {
    && QueryOf(url).Some? && IsSpace(url[|url| - 1])
    && '=' !in AfterLast(QueryOf(url).value, '&')
  }

  lemma NamesAre(url: string)
    ensures ParamNames(url) == if QueryOf(url).None? then [] else NamesIn(SplitOn(QueryOf(url).value, '&'))
  {
  }

  lemma {:induction false} NamesAppend(a: seq<string>, p: string)
    ensures NamesIn(a + [p]) == NamesIn(a) + if p == "" then [] else [SplitOn(p, '=')[0]]
  {
    hide SplitOn;
    if a == [] {
      assert a + [p] == [p] && [p][1..] == [];
      assert NonEmpty([p]) == if p == "" then [] else [p];
      OneName(p);
    } else {
      assert (a + [p])[1..] == a[1..] + [p];
      NamesAppend(a[1..], p);
      NamesCons(a[0], NonEmpty(a[1..]));
      NamesCons(a[0], NonEmpty(a[1..] + [p]));
      assert [] + NonEmpty(a[1..]) == NonEmpty(a[1..]) && [] + NonEmpty(a[1..] + [p]) == NonEmpty(a[1..] + [p]);
    }
  }

  lemma NamesCons(p: string, rest: seq<string>)
    ensures NamesOf([p] + rest) == [SplitOn(p, '=')[0]] + NamesOf(rest)
  {
    assert ([p] + rest)[1..] == rest;
  }

  lemma OneName(p: string)
    ensures NamesOf([p]) == [SplitOn(p, '=')[0]] && NamesOf([]) == []
  {
    assert [p][1..] == [];
  }

  /** The name of a parameter: what comes before its first '=', which trimming its end does not reach. */
  lemma TrimmedName(p: string)
    requires '=' in p
    ensures TrimEnd(p) != "" && SplitOn(TrimEnd(p), '=')[0] == SplitOn(p, '=')[0]
  {
    SplitTrimmed(p, '=');
    SeveralPieces(p, '=');
    assert SplitOn("", '=') == [""];
  }

  lemma {:induction false} SeveralPieces(s: string, c: char)
    ensures |SplitOn(s, c)| > 1 <==> c in s
    ensures c !in s ==> SplitOn(s, c) == [s]
  {
    if s != "" {
      SeveralPieces(s[1..], c);
      assert s == [s[0]] + s[1..];
    }
  }

  lemma TrimEndShortens(s: string)
    requires s != "" && IsSpace(s[|s| - 1])
    ensures |TrimEnd(s)| < |s|
  {
  }

  /** The names of a query after its end is trimmed. */
  lemma TrimmedNames(query: string)
    ensures var last := AfterLast(query, '&');
      multiset(NamesIn(SplitOn(TrimEnd(query), '&'))) == multiset(NamesIn(SplitOn(query, '&')))
      <==> '=' in last || TrimEnd(last) == last
  {
    var pieces, last := SplitOn(query, '&'), AfterLast(query, '&');
    var front, trimmed := pieces[..|pieces| - 1], TrimEnd(last);
    LastOfSplit(query, '&');
    assert pieces == front + [last];
    SplitTrimmed(query, '&');
    NamesAppend(front, last);
    NamesAppend(front, trimmed);
    SeveralPieces(last, '=');
    SeveralPieces(trimmed, '=');
    if '=' in last {
      TrimmedName(last);
    }
    LastNameDecides(NamesIn(front), NameOf(last), NameOf(trimmed));
    PrefixHasNo(trimmed, last, '=');
  }

  function NameOf(p: string): seq<string> {
    if p == "" then [] else [SplitOn(p, '=')[0]]
  }

  lemma PrefixHasNo(a: string, b: string, c: char)
    requires a <= b
    ensures c !in b ==> c !in a
  {
  }

  lemma LastNameDecides(front: seq<string>, a: seq<string>, b: seq<string>)
    requires |a| <= 1 && |b| <= 1
    ensures multiset(front + a) == multiset(front + b) <==> a == b
  {
    assert multiset(front + a) == multiset(front) + multiset(a) && multiset(front + b) == multiset(front) + multiset(b);
    if a != b {
      var n := if a != [] then a[0] else b[0];
      assert multiset(a)[n] != multiset(b)[n];
      assert multiset(front + a)[n] - multiset(a)[n] == multiset(front + b)[n] - multiset(b)[n];
    }
  }

  lemma TrimStopsAtQuery(url: string)
    requires QueryOf(url).Some?
    ensures QueryOf(TrimEnd(url)) == Some(TrimEnd(QueryOf(url).value))
  {
    var n := RunLength(url, BeforeQuery);
    var head, query := url[..n + 1], url[n + 1..];
    assert url == head + query && head[n] == '?';
    TrimEndSuffix(head, query);
    var trimmed := head + TrimEnd(query);
    assert forall i :: 0 <= i < n ==> trimmed[i] == url[i];
    assert trimmed[n] == '?';
    assert RunLength(trimmed, BeforeQuery) == n;
    assert trimmed[n + 1..] == TrimEnd(query);
  }

  lemma NoQueryTrimmed(url: string)
    requires QueryOf(url).None?
    ensures QueryOf(TrimEnd(url)).None?
  {
    var trimmed := TrimEnd(url);
    assert forall i :: 0 <= i < |trimmed| ==> trimmed[i] == url[i];
  }

  lemma LastCharacter(url: string)
    requires QueryOf(url).Some?
    ensures var last := AfterLast(QueryOf(url).value, '&');
      TrimEnd(last) == last <==> !IsSpace(url[|url| - 1])
  {
    var query := QueryOf(url).value;
    var last := AfterLast(query, '&');
    assert query == "" ==> url[|url| - 1] == '?';
    assert query != "" ==> query[|query| - 1] == url[|url| - 1];
    assert last != "" ==> query != "" && last[|last| - 1] == query[|query| - 1];
    if last != "" && IsSpace(last[|last| - 1]) {
      TrimEndShortens(last);
    }
  }

  /** Trimming a source changes its parameter names exactly when it loses one at the end of the query. */
  lemma TrimLosesIff(url: string)
    requires Absolute(url)
    ensures multiset(ParamNames(Trim(url))) == multiset(ParamNames(url)) <==> !LosesName(url)
  {
    assert Trim(url) == TrimEnd(url);
    NamesAre(url);
    NamesAre(TrimEnd(url));
    hide ParamNames, SplitOn, AfterLast, Trim, QueryOf, NamesIn, TrimEnd;
    if QueryOf(url).None? {
      NoQueryTrimmed(url);
    } else {
      TrimStopsAtQuery(url);
      TrimmedNames(QueryOf(url).value);
      LastCharacter(url);
    }
  }

  /**
   The verb checks an alias before it trims the source. An accepted alias loses its parity if and
   only if its source has a query that ends in a space, inside a parameter without a value.
   */
  lemma StoredAliasParity(t: Tables, w: Uuid, urlFrom: string, urlTo: string, newId: Uuid)
    requires Create(t, w, "alias_308", urlFrom, Some(urlTo), newId).1.Ok?
    ensures var row := Create(t, w, "alias_308", urlFrom, Some(urlTo), newId).0.redirects[newId];
      ParamParityHolds(row.urlFrom, urlTo) <==> !LosesName(urlFrom)
  {
    hide ParamNames, ParamParityHolds, LosesName, Trim;
    ParityIsMultiset(urlFrom, urlTo);
    ParityIsMultiset(Trim(urlFrom), urlTo);
    TrimLosesIff(urlFrom);
  }

  /** Such sources exist: the verb accepts this alias, and its stored row breaks the parity. */
  lemma TrimBreaksParity(t: Tables, w: Uuid, newId: Uuid)
    requires w in t.websites && newId !in t.redirects && AnswerFor(t, w, "/a?x").None?
    ensures var (after, r) := Create(t, w, "alias_308", "/a?x ", Some("/b?x "), newId);
      r == Ok(newId) && newId in after.redirects && !ParamParityHolds(after.redirects[newId].urlFrom, "/b?x ")
  {
    SpacedAlias();
    hide ParamNames, Trim, ParamParityHolds, AnswerFor, LosesName;
    NoAnswerIs(t, w, "/a?x");
    ParityIsMultiset("/a?x ", "/b?x ");
    StoredAliasParity(t, w, "/a?x ", "/b?x ", newId);
  }

  lemma SpacedAlias()
    ensures LosesName("/a?x ") && Trim("/a?x ") == "/a?x" && ParamNames("/a?x ") == ParamNames("/b?x ")
  {
    assert RunLength("/a?x ", BeforeQuery) == 2 && RunLength("/b?x ", BeforeQuery) == 2;
    assert "/a?x "[3..] == "x " && "/b?x "[3..] == "x ";
    assert AfterLast("x ", '&') <= "x " by {
      assert "x "[..1] == "x" && "x"[..0] == "";
    }
    assert TrimStart("/a?x ") == "/a?x " && "/a?x "[..4] == "/a?x";
  }

  // ---- the parameter names of a url ----

  /** For each piece with something in it, what stands before its first '='. */
  function NamesOfPieces(pieces: seq<string>): seq<string> {
    if pieces == [] then []
    else (if pieces[0] == "" then [] else [pieces[0][..RunLength(pieces[0], BeforeEquals)]]) + NamesOfPieces(pieces[1..])
  }

  predicate BeforeEquals(c: char) {
    c != '='
  }

  /**
   The names of a url are those of the pieces of its query, between the ampersands after the first
   question mark; without one there are none.
   */
  lemma ParamNamesAre(path: string, pieces: seq<string>)
    requires '?' !in path && pieces != [] && forall p :: p in pieces ==> '&' !in p
    ensures ParamNames(path) == []
    ensures ParamNames(path + "?" + Join(pieces, '&')) == NamesOfPieces(pieces)
  {
    var query := Join(pieces, '&');
    var url := path + "?" + query;
    PathRun(path, "");
    PathRun(path, "?" + query);
    assert path + "" == path && path + ("?" + query) == url;
    assert url[|path| + 1..] == query;
    SplitJoined(pieces, '&');
    NamesAgree(pieces);
  }

  lemma {:induction false} PathRun(path: string, rest: string)
    requires '?' !in path && (rest != "" ==> rest[0] == '?')
    ensures RunLength(path + rest, BeforeQuery) == |path|
  {
    if path == "" {
      assert path + rest == rest;
    } else {
      assert (path + rest)[1..] == path[1..] + rest;
      PathRun(path[1..], rest);
    }
  }

  lemma {:induction false} SplitJoined(pieces: seq<string>, c: char)
    requires pieces != [] && forall p :: p in pieces ==> c !in p
    ensures SplitOn(Join(pieces, c), c) == pieces
  {
    if |pieces| == 1 {
      SeveralPieces(pieces[0], c);
    } else {
      SplitJoined(pieces[1..], c);
      SplitFirst(pieces[0], Join(pieces[1..], c), c);
      assert pieces[0] + [c] + Join(pieces[1..], c) == pieces[0] + ([c] + Join(pieces[1..], c));
    }
  }

  lemma {:induction false} SplitFirst(first: string, rest: string, c: char)
    requires c !in first
    ensures SplitOn(first + ([c] + rest), c) == [first] + SplitOn(rest, c)
  {
    var s := first + ([c] + rest);
    if first == "" {
      assert s == [c] + rest && s[1..] == rest;
    } else {
      assert s[1..] == first[1..] + ([c] + rest) && s[0] == first[0];
      SplitFirst(first[1..], rest, c);
      assert [first[0]] + first[1..] == first;
    }
  }

  lemma {:induction false} NamesAgree(pieces: seq<string>)
    ensures NamesIn(pieces) == NamesOfPieces(pieces)
  {
    if pieces != [] {
      NamesAgree(pieces[1..]);
      FirstOfSplit(pieces[0], '=');
      NamesCons(pieces[0], NonEmpty(pieces[1..]));
      assert [] + NonEmpty(pieces[1..]) == NonEmpty(pieces[1..]) && [] + NamesOfPieces(pieces[1..]) == NamesOfPieces(pieces[1..]);
    }
  }

  lemma {:induction false} FirstOfSplit(s: string, c: char)
    requires c == '='
    ensures SplitOn(s, c)[0] == s[..RunLength(s, BeforeEquals)]
  {
    if s != "" && s[0] != c {
      FirstOfSplit(s[1..], c);
      assert s == [s[0]] + s[1..];
    }
  }
}
