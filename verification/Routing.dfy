/**
 The routing read: the redirect answer and the anonymous page read feed the matcher, and a client
 follows the redirects it gives. When every chain ends, and which new redirect breaks that.
 */
module Routing {
  import opened Common
  import opened Schema
  import opened Text
  import opened LangMatcher
  import opened Rewriting
  import Pages
  import Redirects

  function Slashed(path: Option<string>): (r: string)
    ensures Absolute(r)
  {
    match path
    case None => "/"
    case Some(p) => if Absolute(p) then p else "/" + p
  }

  function LangOf(t: Tables, w: Uuid): string {
    if w in t.websites then t.websites[w].lang else ""
  }

  /** The stored url of the page an anonymous visitor is served at the path. */
  function ResolvedUrl(t: Tables, w: Uuid, path: string, now: int): Option<string> {
    match Pages.VisiblePage(t, w, path, None, now)
    case Ok(Some(page)) => Some(page.row.content.url)
    case _ => None
  }

  function InputFor(t: Tables, w: Uuid, path: string, httpMethod: string, bot: bool, now: int): MatchInput {
    MatchInput(path, httpMethod, bot, LangOf(t, w), Redirects.AnswerFor(t, w, path), ResolvedUrl(t, w, path, now))
  }

  /** The routing verb, for the website the host resolved to. */
  function PublicResolve(t: Tables, w: Uuid, path: Option<string>, httpMethod: string, bot: bool, now: int): Answer {
    var i := InputFor(t, w, Slashed(path), httpMethod, bot, now);
    Answer(Act(FirstMatch(i), i), FirstMatch(i))
  }

  // ---- one answer ----

  /** The url fold returns exactly the requested url, so the canonical row never fires here. */
  lemma CanonicalNeverFires(t: Tables, w: Uuid, path: Option<string>, httpMethod: string, bot: bool, now: int)
    ensures PublicResolve(t, w, path, httpMethod, bot, now).row != CanonicalUrl
    ensures ResolvedUrl(t, w, Slashed(path), now) in {None, Some(Slashed(path))}
  {
  }

  /** A bot, and any method but GET, is served the page or told there is none; it is never sent elsewhere. */
  lemma NeverBounced(t: Tables, w: Uuid, path: Option<string>, httpMethod: string, bot: bool, now: int)
    requires bot || httpMethod != "GET"
    ensures PublicResolve(t, w, path, httpMethod, bot, now).action
      == if ResolvedUrl(t, w, Slashed(path), now).Some? then Serve else Missing
    ensures ResolvedUrl(t, w, Slashed(path), now).Some?
      <==> Pages.VisiblePage(t, w, Slashed(path), None, now).Ok? && Pages.VisiblePage(t, w, Slashed(path), None, now).value.Some?
  {
    CanonicalNeverFires(t, w, path, httpMethod, bot, now);
    assert MATCHER_TABLE[0] == BotNeverRedirect && MATCHER_TABLE[1] == PostNeverBounce;
    assert InputFor(t, w, Slashed(path), httpMethod, bot, now).httpMethod == httpMethod;
  }

  /** What a person's GET gets: the slash and language rows, then the redirect table, then the page. */
  lemma GetAnswer(t: Tables, w: Uuid, path: string, now: int)
    requires Absolute(path)
    ensures PublicResolve(t, w, Some(path), "GET", false, now).action
      == match Hop(path, LangOf(t, w))
         case Some(next) => Reroute(301, next)
         case None =>
           match Redirects.AnswerFor(t, w, path)
           case Some(r) =>
             if r.kind.Gone404? then Missing
             else Reroute(if r.kind.Moved301? then 301 else if r.kind.Found302? then 302 else 308, OrEmpty(r.urlTo))
           case None => if ResolvedUrl(t, w, path, now).Some? then Serve else Missing
  {
    CanonicalNeverFires(t, w, Some(path), "GET", false, now);
    RowFor(InputFor(t, w, path, "GET", false, now));
  }

  /**
   A person's GET is served exactly when an anonymous read of the path is, when no row above sends it
   elsewhere; and otherwise there is nothing.
   */
  lemma GetServes(t: Tables, w: Uuid, path: string, now: int)
    requires Absolute(path) && Hop(path, LangOf(t, w)).None? && Redirects.AnswerFor(t, w, path).None?
    ensures var read := Pages.VisiblePage(t, w, path, None, now);
      PublicResolve(t, w, Some(path), "GET", false, now).action == if read.Ok? && read.value.Some? then Serve else Missing
  {
    hide Hop, PublicResolve;
    GetAnswer(t, w, path, now);
  }

  /** A missing path is the front page, and a path without its slash is given one. */
  lemma RoutedAs(t: Tables, w: Uuid, path: string, httpMethod: string, bot: bool, now: int)
    ensures PublicResolve(t, w, None, httpMethod, bot, now) == PublicResolve(t, w, Some("/"), httpMethod, bot, now)
    ensures !Absolute(path) ==>
      PublicResolve(t, w, Some(path), httpMethod, bot, now) == PublicResolve(t, w, Some("/" + path), httpMethod, bot, now)
  {
    hide Act, FirstMatch, InputFor;
  }

  /** The row a person's GET reaches. */
  lemma RowFor(i: MatchInput)
    requires !i.bot && i.httpMethod == "GET" && i.resolvedUrl in {None, Some(i.path)}
    ensures FirstMatch(i)
      == if IsTrailing(i.path) then TrailingSlash
         else if IsDoubled(i.path) then DoubleSlash
         else if IsLangPrefixed(i.path, i.lang) then DefaultLang
         else if i.redirect.Some? then RedirectTable
         else Terminal
  {
  }

  // ---- following the answers ----

  /** The next path of the site a client asks for, or nothing when it is served, refused or sent off the site. */
  function Next(t: Tables, w: Uuid, path: string): Option<string> {
    match Hop(path, LangOf(t, w))
    case Some(next) => Some(next)
    case None =>
      match Redirects.AnswerFor(t, w, path)
      case Some(r) => if !r.kind.Gone404? && Absolute(OrEmpty(r.urlTo)) then r.urlTo else None
      case None => None
  }

  lemma HopKeepsAbsolute(path: string, lang: string)
    requires Absolute(path) && Hop(path, lang).Some?
    ensures Absolute(Hop(path, lang).value)
  {
    TrimIs(path);
    CollapseEdges(path);
  }

  /** The reference step is the answer, at whatever time the client asks. */
  lemma NextIsTheAnswer(t: Tables, w: Uuid, path: string, now: int)
    requires Absolute(path)
    ensures var action := PublicResolve(t, w, Some(path), "GET", false, now).action;
      Next(t, w, path) == if action.Reroute? && Absolute(action.location) then Some(action.location) else None
  {
    hide PublicResolve, Hop;
    GetAnswer(t, w, path, now);
    if Hop(path, LangOf(t, w)).Some? {
      HopKeepsAbsolute(path, LangOf(t, w));
    }
  }

  /** The chain from the path ends within n hops. */
  ghost predicate Settles(t: Tables, w: Uuid, path: string, n: nat)
    decreases n
  {
    Next(t, w, path).None? || (n > 0 && Settles(t, w, Next(t, w, path).value, n - 1))
  }

  ghost predicate Ends(t: Tables, w: Uuid, path: string) {
    exists n :: Settles(t, w, path, n)
  }

  ghost predicate EveryChainEnds(t: Tables, w: Uuid) {
    forall path: string :: Ends(t, w, path)
  }

  // ---- the rank ----

  /** The row sends the website's clients on, within the site, from a path no row above the table rewrites under the code. */
  predicate SendsUnder(row: Redirect, w: Uuid, code: string) {
    && row.website == w && !row.kind.Gone404? && Absolute(OrEmpty(row.urlTo))
    && Hop(row.urlFrom, code).None?
  }

  predicate SendsOn(t: Tables, w: Uuid, row: Redirect) {
    SendsUnder(row, w, LangOf(t, w))
  }

  predicate Sends(t: Tables, w: Uuid, id: Uuid) {
    id in t.redirects && t.redirects[id].live && SendsOn(t, w, t.redirects[id])
  }

  /** The rank falls from the source of every redirect to the normal form of its target. */
  ghost predicate RankFalls(t: Tables, w: Uuid, rank: string -> nat) {
    forall id :: Sends(t, w, id) ==>
      rank(NormalForm(OrEmpty(t.redirects[id].urlTo), LangOf(t, w))) < rank(t.redirects[id].urlFrom)
  }

  /** By (rank of the normal form, length): a slash or language hop keeps the first and shortens, a redirect lowers the first. */
  lemma {:induction false} RankedChainEnds(t: Tables, w: Uuid, rank: string -> nat, path: string) returns (n: nat)
    requires RankFalls(t, w, rank)
    ensures Settles(t, w, path, n)
    decreases rank(NormalForm(path, LangOf(t, w))), |path|
  {
    hide NormalForm, Hop;
    var lang := LangOf(t, w);
    n := 0;
    if Next(t, w, path).Some? {
      var next := Next(t, w, path).value;
      HopShortens(path, lang);
      NormalFormIsFinal(path, lang);
      if Hop(path, lang).None? {
        FixedNormalForm(path, lang);
        var ids := Redirects.AnswerIds(t, w, path);
        var id := First(ids).value;
        assert id in ids && Sends(t, w, id);
      }
      var m := RankedChainEnds(t, w, rank, next);
      n := m + 1;
    }
  }

  lemma FixedNormalForm(path: string, lang: string)
    requires Hop(path, lang).None?
    ensures NormalForm(path, lang) == path
  {
  }

  ghost function HopsLeft(t: Tables, w: Uuid, path: string): (n: nat)
    ensures Ends(t, w, path) ==> Settles(t, w, path, n) && (n > 0 ==> !Settles(t, w, path, n - 1))
  {
    if Ends(t, w, path) then
      var n :| Settles(t, w, path, n);
      LeastHops(t, w, path, n)
    else 0
  }

  ghost function LeastHops(t: Tables, w: Uuid, path: string, n: nat): (m: nat)
    requires Settles(t, w, path, n)
    ensures Settles(t, w, path, m) && (m > 0 ==> !Settles(t, w, path, m - 1))
  {
    if n > 0 && Settles(t, w, path, n - 1) then LeastHops(t, w, path, n - 1) else n
  }

  lemma {:induction false} MoreHops(t: Tables, w: Uuid, path: string, n: nat, m: nat)
    requires Settles(t, w, path, n) && n <= m
    ensures Settles(t, w, path, m)
    decreases n
  {
    hide Next;
    if Next(t, w, path).Some? {
      MoreHops(t, w, Next(t, w, path).value, n - 1, m - 1);
    }
  }

  /** One step uses up one hop. */
  lemma StepLowers(t: Tables, w: Uuid, path: string)
    requires Ends(t, w, path) && Next(t, w, path).Some?
    ensures Ends(t, w, Next(t, w, path).value) && HopsLeft(t, w, Next(t, w, path).value) < HopsLeft(t, w, path)
  {
    hide Next;
    var n, next := HopsLeft(t, w, path), Next(t, w, path).value;
    assert Settles(t, w, next, n - 1);
    var m := HopsLeft(t, w, next);
    if m >= n {
      MoreHops(t, w, next, n - 1, m - 1);
    }
  }

  lemma {:induction false} NormalFormLowers(t: Tables, w: Uuid, path: string)
    requires Ends(t, w, path)
    ensures Ends(t, w, NormalForm(path, LangOf(t, w)))
    ensures HopsLeft(t, w, NormalForm(path, LangOf(t, w))) <= HopsLeft(t, w, path)
    decreases |path|
  {
    hide Hop, HopsLeft, Settles, Ends;
    var lang := LangOf(t, w);
    if Hop(path, lang).Some? {
      HopShortens(path, lang);
      StepLowers(t, w, path);
      NormalFormLowers(t, w, Hop(path, lang).value);
    }
  }

  lemma RowLowers(t: Tables, w: Uuid, id: Uuid)
    requires Redirects.OneAnswerPerPath(t) && EveryChainEnds(t, w) && Sends(t, w, id)
    ensures HopsLeft(t, w, NormalForm(OrEmpty(t.redirects[id].urlTo), LangOf(t, w))) < HopsLeft(t, w, t.redirects[id].urlFrom)
  {
    hide HopsLeft, NormalForm, Hop;
    var from, to := t.redirects[id].urlFrom, OrEmpty(t.redirects[id].urlTo);
    assert id in Redirects.AnswerIds(t, w, from);
    assert Ends(t, w, from) && Ends(t, w, to);
    StepLowers(t, w, from);
    NormalFormLowers(t, w, to);
  }

  /** Every redirect chain of the website ends, from every path, exactly when the redirect table has a falling rank. */
  lemma ChainsEndIffRanked(t: Tables, w: Uuid)
    requires Redirects.OneAnswerPerPath(t)
    ensures EveryChainEnds(t, w) <==> exists rank: string -> nat :: RankFalls(t, w, rank)
  {
    if EveryChainEnds(t, w) {
      var rank := (path: string) => HopsLeft(t, w, path);
      forall id | Sends(t, w, id)
        ensures rank(NormalForm(OrEmpty(t.redirects[id].urlTo), LangOf(t, w))) < rank(t.redirects[id].urlFrom)
      {
        RowLowers(t, w, id);
      }
      assert RankFalls(t, w, rank);
    }
    if rank: string -> nat :| RankFalls(t, w, rank) {
      forall path: string ensures Ends(t, w, path) {
        var n := RankedChainEnds(t, w, rank, path);
      }
    }
  }

  // ---- one path rerouted ----

  /** n hops lead from p to q. */
  ghost predicate Leads(t: Tables, w: Uuid, p: string, q: string, n: nat)
    decreases n
  {
    if n == 0 then p == q else Next(t, w, p).Some? && Leads(t, w, Next(t, w, p).value, q, n - 1)
  }

  ghost predicate Reaches(t: Tables, w: Uuid, p: string, q: string) {
    exists n :: Leads(t, w, p, q, n)
  }

  /** The two tables route alike but at one path. */
  ghost predicate AlikeBut(t: Tables, t': Tables, w: Uuid, a: string) {
    forall p :: p != a ==> Next(t', w, p) == Next(t, w, p)
  }

  lemma ReachesUnfolds(t: Tables, w: Uuid, p: string, q: string)
    ensures p == q || (Next(t, w, p).Some? && Reaches(t, w, Next(t, w, p).value, q)) ==> Reaches(t, w, p, q)
  {
    hide Next;
    if p == q {
      assert Leads(t, w, p, q, 0);
    } else if Next(t, w, p).Some? && Reaches(t, w, Next(t, w, p).value, q) {
      var m: nat :| Leads(t, w, Next(t, w, p).value, q, m);
      assert Leads(t, w, p, q, m + 1);
    }
  }

  lemma {:induction false} AvoidingChainStays(t: Tables, t': Tables, w: Uuid, a: string, p: string, n: nat)
    requires AlikeBut(t, t', w, a) && Settles(t, w, p, n) && !Reaches(t, w, p, a)
    ensures Settles(t', w, p, n)
    decreases n
  {
    hide Next;
    ReachesUnfolds(t, w, p, a);
    if Next(t, w, p).Some? {
      var next := Next(t, w, p).value;
      AvoidingChainStays(t, t', w, a, next, n - 1);
    }
  }

  lemma {:induction false} ChainStillEnds(t: Tables, t': Tables, w: Uuid, a: string, p: string, n: nat, m: nat)
    requires AlikeBut(t, t', w, a) && Settles(t, w, p, n) && Settles(t', w, a, m)
    ensures Settles(t', w, p, n + m)
    decreases n
  {
    hide Next;
    if p == a {
      MoreHops(t', w, a, m, n + m);
    } else if Next(t, w, p).Some? {
      ChainStillEnds(t, t', w, a, Next(t, w, p).value, n - 1, m);
    }
  }

  /** The way to `a` is still there: it ends at the first `a` it meets. */
  lemma {:induction false} StillLeads(t: Tables, t': Tables, w: Uuid, a: string, p: string, n: nat) returns (m: nat)
    requires AlikeBut(t, t', w, a) && Leads(t, w, p, a, n)
    ensures Leads(t', w, p, a, m)
    decreases n
  {
    hide Next;
    m := 0;
    if p != a {
      var next := Next(t, w, p).value;
      var k := StillLeads(t, t', w, a, next, n - 1);
      m := k + 1;
    }
  }

  lemma {:induction false} LedAlong(t: Tables, w: Uuid, p: string, q: string, n: nat, k: nat)
    requires Leads(t, w, p, q, n) && Settles(t, w, p, k)
    ensures n <= k && Settles(t, w, q, k - n)
    decreases n
  {
    hide Next;
    if n > 0 {
      LedAlong(t, w, Next(t, w, p).value, q, n - 1, k - 1);
    }
  }

  lemma {:induction false} CycleNeverSettles(t: Tables, w: Uuid, p: string, n: nat, k: nat)
    requires n > 0 && Leads(t, w, p, p, n)
    ensures !Settles(t, w, p, k)
    decreases k
  {
    if Settles(t, w, p, k) {
      LedAlong(t, w, p, p, n, k);
      CycleNeverSettles(t, w, p, n, k - n);
    }
  }

  /**
   Whatever one path is made to answer keeps every chain ending exactly when it leads nowhere, or
   the chain from where it leads did not already pass that path: the question a writer can answer by
   following the target once.
   */
  lemma NewStepIsSafe(t: Tables, t': Tables, w: Uuid, a: string)
    requires AlikeBut(t, t', w, a) && EveryChainEnds(t, w)
    ensures EveryChainEnds(t', w) <==> (Next(t', w, a).Some? ==> !Reaches(t, w, Next(t', w, a).value, a))
  {
    hide Next;
    var next := Next(t', w, a);
    if next.Some? && Reaches(t, w, next.value, a) {
      var n :| Leads(t, w, next.value, a, n);
      var m := StillLeads(t, t', w, a, next.value, n);
      assert Leads(t', w, a, a, m + 1);
      assert Ends(t', w, a) ==> exists k :: Settles(t', w, a, k);
      forall k ensures !Settles(t', w, a, k) {
        CycleNeverSettles(t', w, a, m + 1, k);
      }
    } else {
      var m := SettledStep(t, t', w, a);
      forall p: string ensures Ends(t', w, p) {
        assert Ends(t, w, p);
        var n :| Settles(t, w, p, n);
        ChainStillEnds(t, t', w, a, p, n, m);
      }
    }
  }

  lemma SettledStep(t: Tables, t': Tables, w: Uuid, a: string) returns (m: nat)
    requires AlikeBut(t, t', w, a) && EveryChainEnds(t, w)
    requires Next(t', w, a).Some? ==> !Reaches(t, w, Next(t', w, a).value, a)
    ensures Settles(t', w, a, m)
  {
    hide Next;
    m := 0;
    if Next(t', w, a).Some? {
      var b := Next(t', w, a).value;
      assert Ends(t, w, b);
      var k: nat :| Settles(t, w, b, k);
      AvoidingChainStays(t, t', w, a, b, k);
      m := k + 1;
    }
  }
}
