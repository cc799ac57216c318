/**
 The redirect verbs: validation, the officer writes, the recording seam, and the routing answer.
 */
module Redirects {
  import opened Common
  import opened Schema
  import opened Text
  import Pages
  import Sorting

  datatype RedirectError = InvalidInput | TargetRequired | ParamParity | SpecificityConflict | NotFound | ForeignKey

  // ---- the 308 parity rule ----

  function NonEmpty(ps: seq<string>): seq<string> {
    if ps == [] then [] else (if ps[0] == "" then [] else [ps[0]]) + NonEmpty(ps[1..])
  }

  function NamesOf(ps: seq<string>): seq<string> {
    if ps == [] then [] else [SplitOn(ps[0], '=')[0]] + NamesOf(ps[1..])
  }

  predicate BeforeQuery(c: char) {
    c != '?'
  }

  /** The query parameter names of a url, in order, with repetitions. */
  function ParamNames(url: string): seq<string> {
    var n := RunLength(url, BeforeQuery);
    if n == |url| then [] else NamesOf(NonEmpty(SplitOn(url[n + 1..], '&')))
  }

  /** Both lists are sorted and compared. */
  predicate ParamParityHolds(urlFrom: string, urlTo: string) {
    Sorting.Sort(Sorting.Leq, ParamNames(urlFrom)) == Sorting.Sort(Sorting.Leq, ParamNames(urlTo))
  }

  /** What the sorted comparison decides: the same names, each as many times. */
  lemma ParityIsMultiset(urlFrom: string, urlTo: string)
    ensures ParamParityHolds(urlFrom, urlTo) <==> multiset(ParamNames(urlFrom)) == multiset(ParamNames(urlTo))
  {
    Sorting.StringOrder();
    Sorting.SortEqual(Sorting.Leq, ParamNames(urlFrom), ParamNames(urlTo));
  }

  ghost predicate SameNameSet(urlFrom: string, urlTo: string) {
    forall n :: n in ParamNames(urlFrom) <==> n in ParamNames(urlTo)
  }

  ghost predicate Distinct(names: seq<string>) {
    forall i, j :: 0 <= i < j < |names| ==> names[i] != names[j]
  }

  /**
   Against a url that repeats no name the rule is the documented comparison of name sets exactly as
   far as the other url repeats none either.
   */
  lemma ParityIsSetWhenDistinct(urlFrom: string, urlTo: string)
    requires Distinct(ParamNames(urlFrom)) || Distinct(ParamNames(urlTo))
    ensures ParamParityHolds(urlFrom, urlTo)
      <==> SameNameSet(urlFrom, urlTo) && Distinct(ParamNames(urlFrom)) && Distinct(ParamNames(urlTo))
  {
    ParityIsMultiset(urlFrom, urlTo);
    var a, b := ParamNames(urlFrom), ParamNames(urlTo);
    hide ParamNames, ParamParityHolds;
    if multiset(a) == multiset(b) {
      forall n ensures n in a <==> n in b {
        assert n in multiset(a) <==> n in multiset(b);
      }
      if Distinct(a) {
        DistinctIsMultiset(a, b);
      } else {
        DistinctIsMultiset(b, a);
      }
    } else if Distinct(a) && Distinct(b) && SameNameSet(urlFrom, urlTo) {
      SameCounts(a, b);
    }
  }

  lemma SameCounts(a: seq<string>, b: seq<string>)
    requires Distinct(a) && Distinct(b) && forall n :: n in a <==> n in b
    ensures multiset(a) == multiset(b)
  {
    forall n ensures multiset(a)[n] == multiset(b)[n] {
      CountDistinct(a, n);
      CountDistinct(b, n);
    }
  }

  /** Repetitions show in the multiset. */
  lemma DistinctIsMultiset(a: seq<string>, b: seq<string>)
    requires Distinct(a) && multiset(a) == multiset(b)
    ensures Distinct(b)
  {
    forall i, j | 0 <= i < j < |b| ensures b[i] != b[j] {
      CountDistinct(a, b[i]);
      Sorting.TwiceCounts(b, i, j);
    }
  }

  lemma {:induction false} CountDistinct(a: seq<string>, n: string)
    requires Distinct(a)
    ensures multiset(a)[n] == if n in a then 1 else 0
  {
    if a != [] {
      assert a == [a[0]] + a[1..];
      CountDistinct(a[1..], n);
    }
  }

  /** A repeated name is counted: the rule refuses two urls whose name sets agree. */
  lemma ParityCountsRepetitions()
    ensures SameNameSet("/a?x&x", "/b?x") && !ParamParityHolds("/a?x&x", "/b?x")
  {
    RepeatedNames();
    ParityIsMultiset("/a?x&x", "/b?x");
    assert multiset(["x", "x"])["x"] == 2 && multiset(["x"])["x"] == 1;
  }

  lemma RepeatedNames()
    ensures ParamNames("/a?x&x") == ["x", "x"] && ParamNames("/b?x") == ["x"]
  {
    var s := "x&x";
    assert RunLength("/a?x&x", BeforeQuery) == 2 && RunLength("/b?x", BeforeQuery) == 2;
    assert "/a?x&x"[3..] == s && "/b?x"[3..] == "x";
    SplitOne('x', '&');
    SplitOne('x', '=');
    assert s[1..] == "&x" && s[1..][1..] == "x";
    assert SplitOn("&x", '&') == ["", "x"];
    assert SplitOn(s, '&') == ["x", "x"];
    assert NonEmpty(["x", "x"]) == ["x", "x"] && NonEmpty(["x"]) == ["x"];
    assert NamesOf(["x"]) == ["x"];
    assert NamesOf(["x", "x"]) == ["x", "x"];
  }

  lemma SplitOne(x: char, c: char)
    requires x != c
    ensures SplitOn([x], c) == [[x]]
  {
    var rest := SplitOn([x][1..], c);
    assert [x][1..] == "" && rest == [""];
    assert [x] + rest[0] == [x] && rest[1..] == [];
  }

  // ---- validation ----

  function ParseKind(kind: string): Option<RedirectType> {
    if kind == "moved_301" then Some(Moved301)
    else if kind == "found_302" then Some(Found302)
    else if kind == "alias_308" then Some(Alias308)
    else if kind == "gone_404" then Some(Gone404)
    else None
  }

  function ValidateRedirect(kind: string, urlFrom: string, urlTo: Option<string>): Result<RedirectType, RedirectError> {
    if !Absolute(urlFrom) then Err(InvalidInput)
    else
      match ParseKind(kind)
      case None => Err(InvalidInput)
      case Some(Gone404) => if urlTo.Some? then Err(InvalidInput) else Ok(Gone404)
      case Some(k) =>
        if urlTo.None? then Err(TargetRequired)
        else if k.Alias308? then (if ParamParityHolds(urlFrom, urlTo.value) then Ok(k) else Err(ParamParity))
        else if Absolute(urlTo.value) then Ok(k)
        else Err(InvalidInput)
  }

  lemma ValidIsAbsolute(kind: string, urlFrom: string, urlTo: Option<string>)
    ensures ValidateRedirect(kind, urlFrom, urlTo).Ok? ==> Absolute(urlFrom)
  {
  }

  // ---- the writes ----

  /** INSERT .. with the unique index as a refusal. */
  function Create(t: Tables, w: Uuid, kind: string, urlFrom: string, urlTo: Option<string>, newId: Uuid):
    (Tables, Result<Uuid, RedirectError>)
  {
    var k := ValidateRedirect(kind, urlFrom, urlTo);
    if k.Err? then (t, Err(k.error))
    else if Pages.RedirectTaken(t, newId, w, Trim(urlFrom)) then (t, Err(SpecificityConflict))
    else if w !in t.websites then (t, Err(ForeignKey))
    else (t.(redirects := t.redirects[newId := Redirect(w, Trim(urlFrom), k.value, urlTo, true)]), Ok(newId))
  }

  datatype Patch = Patch(urlFrom: Option<string>, kind: Option<string>, urlTo: Option<Option<string>>, description: bool)

  function KindText(k: RedirectType): string {
    match k
    case Moved301 => "moved_301"
    case Found302 => "found_302"
    case Alias308 => "alias_308"
    case Gone404 => "gone_404"
  }

  lemma KindRoundTrip(k: RedirectType)
    ensures ParseKind(KindText(k)) == Some(k)
  {
  }

  function PatchedFrom(r: Redirect, p: Patch): string {
    if p.urlFrom.Some? then p.urlFrom.value else r.urlFrom
  }

  function PatchedTo(r: Redirect, p: Patch): Option<string> {
    if p.urlTo.Some? then p.urlTo.value else r.urlTo
  }

  predicate OtherHasFrom(t: Tables, id: Uuid, w: Uuid, urlFrom: string) {
    exists r :: r in t.redirects && r != id && t.redirects[r].live && t.redirects[r].website == w && t.redirects[r].urlFrom == urlFrom
  }

  function PatchRedirect(t: Tables, id: Uuid, p: Patch): (Tables, Result<(), RedirectError>) {
    if p.urlFrom.None? && p.kind.None? && p.urlTo.None? && !p.description then (t, Err(InvalidInput))
    else if id !in t.redirects || !t.redirects[id].live then (t, Err(NotFound))
    else
      var row := t.redirects[id];
      var k := ValidateRedirect(if p.kind.Some? then p.kind.value else KindText(row.kind), PatchedFrom(row, p), PatchedTo(row, p));
      if k.Err? then (t, Err(k.error))
      else if OtherHasFrom(t, id, row.website, PatchedFrom(row, p)) then (t, Err(SpecificityConflict))
      else (t.(redirects := t.redirects[id := row.(urlFrom := PatchedFrom(row, p), kind := k.value, urlTo := PatchedTo(row, p))]), Ok(()))
  }

  function Delete(t: Tables, id: Uuid): (Tables, Result<(), RedirectError>) {
    if id !in t.redirects || !t.redirects[id].live then (t, Err(NotFound))
    else (t.(redirects := t.redirects[id := t.redirects[id].(live := false)]), Ok(()))
  }

  /** The exported seam: an idempotent insert that leaves an existing answer alone. */
  function Record(t: Tables, w: Uuid, urlFrom: string, urlTo: string, kind: string, newId: Uuid):
    (Tables, Result<(), RedirectError>)
  {
    var target := if kind == "gone_404" then None else Some(urlTo);
    var k := ValidateRedirect(kind, urlFrom, target);
    if k.Err? then (t, Err(k.error))
    else if Pages.RedirectTaken(t, newId, w, urlFrom) then (t, Ok(()))
    else if w !in t.websites then (t, Err(ForeignKey))
    else (t.(redirects := t.redirects[newId := Redirect(w, urlFrom, k.value, target, true)]), Ok(()))
  }

  // ---- the routing read ----

  function AnswerIds(t: Tables, w: Uuid, url: string): set<Uuid> {
    set r | r in t.redirects && t.redirects[r].live && t.redirects[r].website == w && t.redirects[r].urlFrom == url
  }

  function AnswerFor(t: Tables, w: Uuid, url: string): Option<Redirect> {
    match First(AnswerIds(t, w, url))
    case None => None
    case Some(r) => Some(t.redirects[r])
  }

  /** The unique index over live redirects. */
  ghost predicate OneAnswerPerPath(t: Tables) {
    forall r, q :: r in t.redirects && q in t.redirects && r != q && t.redirects[r].live && t.redirects[q].live ==>
      t.redirects[r].website != t.redirects[q].website || t.redirects[r].urlFrom != t.redirects[q].urlFrom
  }

  // ---- the transactions ----

  method CreateRow(d: Database, w: Uuid, kind: string, urlFrom: string, urlTo: Option<string>) returns (r: Result<Uuid, RedirectError>)
    requires d.Valid()
    modifies d`redirects, d`nextId
    ensures d.Valid()
    ensures (d.Snapshot(), r) == Create(old(d.Snapshot()), w, kind, urlFrom, urlTo, old(d.nextId))
  {
    var k := ValidateRedirect(kind, urlFrom, urlTo);
    if k.Err? {
      return Err(k.error);
    }
    var t := d.Snapshot();
    var id := d.NewId();
    if Pages.RedirectTaken(t, id, w, Trim(urlFrom)) {
      return Err(SpecificityConflict);
    }
    if w !in d.websites {
      return Err(ForeignKey);
    }
    d.redirects := d.redirects[id := Redirect(w, Trim(urlFrom), k.value, urlTo, true)];
    return Ok(id);
  }

  method PatchRow(d: Database, id: Uuid, p: Patch) returns (r: Result<(), RedirectError>)
    modifies d`redirects
    ensures (d.Snapshot(), r) == PatchRedirect(old(d.Snapshot()), id, p)
  {
    if p.urlFrom.None? && p.kind.None? && p.urlTo.None? && !p.description {
      return Err(InvalidInput);
    }
    if id !in d.redirects || !d.redirects[id].live {
      return Err(NotFound);
    }
    var row := d.redirects[id];
    var urlFrom := if p.urlFrom.Some? then p.urlFrom.value else row.urlFrom;
    var kind := if p.kind.Some? then p.kind.value else KindText(row.kind);
    var urlTo := if p.urlTo.Some? then p.urlTo.value else row.urlTo;
    var k := ValidateRedirect(kind, urlFrom, urlTo);
    if k.Err? {
      return Err(k.error);
    }
    if OtherHasFrom(d.Snapshot(), id, row.website, urlFrom) {
      return Err(SpecificityConflict);
    }
    KindRoundTrip(row.kind);
    if p.urlFrom.Some? { row := row.(urlFrom := p.urlFrom.value); }
    if p.kind.Some? { row := row.(kind := k.value); }
    if p.urlTo.Some? { row := row.(urlTo := p.urlTo.value); }
    d.redirects := d.redirects[id := row];
    return Ok(());
  }

  method DeleteRow(d: Database, id: Uuid) returns (r: Result<(), RedirectError>)
    modifies d`redirects
    ensures (d.Snapshot(), r) == Delete(old(d.Snapshot()), id)
  {
    if id !in d.redirects || !d.redirects[id].live {
      return Err(NotFound);
    }
    d.redirects := d.redirects[id := d.redirects[id].(live := false)];
    return Ok(());
  }

  method RecordRow(d: Database, w: Uuid, urlFrom: string, urlTo: string, kind: string) returns (r: Result<(), RedirectError>)
    requires d.Valid()
    modifies d`redirects, d`nextId
    ensures d.Valid()
    ensures (d.Snapshot(), r) == Record(old(d.Snapshot()), w, urlFrom, urlTo, kind, old(d.nextId))
  {
    var target := if kind == "gone_404" then None else Some(urlTo);
    var k := ValidateRedirect(kind, urlFrom, target);
    if k.Err? {
      return Err(k.error);
    }
    var t := d.Snapshot();
    var id := d.NewId();
    if Pages.RedirectTaken(t, id, w, urlFrom) {
      return Ok(());
    }
    if w !in d.websites {
      return Err(ForeignKey);
    }
    d.redirects := d.redirects[id := Redirect(w, urlFrom, k.value, target, true)];
    return Ok(());
  }
}
