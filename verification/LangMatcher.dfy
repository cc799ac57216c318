/**
 The routing matcher: one ordered table of predicate and action, first match wins. The language
 alias registry is empty, so its row is a predicate that never fires.
 */
module LangMatcher {
  import opened Common
  import opened Schema
  import opened Text

  datatype MatchInput = MatchInput(path: string, httpMethod: string, bot: bool, lang: string,
    redirect: Option<Redirect>, resolvedUrl: Option<string>)

  datatype Action = Serve | Reroute(status: int, location: string) | Missing

  datatype Row = BotNeverRedirect | PostNeverBounce | TrailingSlash | DoubleSlash | DefaultLang
    | LangAlias | RedirectTable | CanonicalUrl | Terminal

  const MATCHER_TABLE: seq<Row> :=
    [BotNeverRedirect, PostNeverBounce, TrailingSlash, DoubleSlash, DefaultLang, LangAlias, RedirectTable, CanonicalUrl, Terminal]

  datatype Answer = Answer(action: Action, row: Row)

  // ---- predicates ----

  predicate IsTrailing(path: string) {
    |path| > 1 && EndsWithSlash(path)
  }

  /** One leading slash is set aside before looking for a double slash. */
  predicate IsDoubled(path: string) {
    HasDoubleSlash(if Absolute(path) then path[1..] else path)
  }

  predicate IsLangPrefixed(path: string, lang: string) {
    && lang != "" && Absolute(path)
    && StartsWith(path[1..], lang)
    && (path[1..] == lang || path[1 + |lang|] == '/')
  }

  predicate Serves(i: MatchInput) {
    i.resolvedUrl == Some(i.path)
  }

  predicate Fires(row: Row, i: MatchInput) {
    match row
    case BotNeverRedirect => i.bot
    case PostNeverBounce => i.httpMethod != "GET"
    case TrailingSlash => IsTrailing(i.path)
    case DoubleSlash => IsDoubled(i.path)
    case DefaultLang => IsLangPrefixed(i.path, i.lang)
    case LangAlias => false
    case RedirectTable => i.redirect.Some?
    case CanonicalUrl => i.resolvedUrl.Some? && i.resolvedUrl.value != i.path
    case Terminal => true
  }

  // ---- actions ----

  function TrimSlashes(path: string): (r: string)
    ensures |r| <= |path|
  {
    if EndsWithSlash(path) then TrimSlashes(path[..|path| - 1]) else path
  }

  function Trimmed(path: string): string {
    var r := TrimSlashes(path);
    if r == "" then "/" else r
  }

  /** Every slash that follows a slash is dropped. */
  function Collapsed(path: string): (r: string)
    ensures |r| <= |path|
  {
    if path == "" then ""
    else
      var n := |path| - 1;
      if path[n] == '/' && EndsWithSlash(path[..n]) then Collapsed(path[..n]) else Collapsed(path[..n]) + [path[n]]
  }

  function Unprefixed(path: string, lang: string): string
    requires IsLangPrefixed(path, lang)
  {
    if path[1..] == lang then "/" else path[1 + |lang|..]
  }

  function OrEmpty(s: Option<string>): string {
    match s
    case None => ""
    case Some(v) => v
  }

  function TableAction(r: Redirect): Action {
    match r.kind
    case Moved301 => Reroute(301, OrEmpty(r.urlTo))
    case Found302 => Reroute(302, OrEmpty(r.urlTo))
    case Alias308 => Reroute(308, OrEmpty(r.urlTo))
    case Gone404 => Missing
  }

  function Act(row: Row, i: MatchInput): Action
    requires Fires(row, i)
  {
    match row
    case TrailingSlash => Reroute(301, Trimmed(i.path))
    case DoubleSlash => Reroute(301, Collapsed(i.path))
    case DefaultLang => Reroute(301, Unprefixed(i.path, i.lang))
    case RedirectTable => TableAction(i.redirect.value)
    case CanonicalUrl => Reroute(301, i.resolvedUrl.value)
    case _ => if Serves(i) then Serve else Missing
  }

  // ---- the loops ----

  method CollapseSlashes(path: string) returns (out: string)
    ensures out == Collapsed(path)
  {
    out := "";
    var previousSlash := false;
    for k := 0 to |path|
      invariant out == Collapsed(path[..k])
      invariant previousSlash <==> EndsWithSlash(path[..k])
    {
      assert path[..k + 1][..k] == path[..k];
      if path[k] == '/' {
        if !previousSlash {
          out := out + [path[k]];
        }
        previousSlash := true;
      } else {
        out := out + [path[k]];
        previousSlash := false;
      }
    }
    assert path[..|path|] == path;
  }

  /** The row fires and no row above it does. */
  ghost predicate IsFirst(row: Row, i: MatchInput) {
    exists n :: 0 <= n < |MATCHER_TABLE| && row == MATCHER_TABLE[n] && (forall j :: 0 <= j < n ==> !Fires(MATCHER_TABLE[j], i))
  }

  /** The first row of the table that fires; the last row always does. */
  function FirstMatch(i: MatchInput): (row: Row)
    ensures Fires(row, i)
    ensures IsFirst(row, i)
  {
    FirstFrom(i, 0)
  }

  function FirstFrom(i: MatchInput, k: nat): (row: Row)
    requires k < |MATCHER_TABLE| && forall j :: 0 <= j < k ==> !Fires(MATCHER_TABLE[j], i)
    ensures Fires(row, i)
    ensures IsFirst(row, i)
    decreases |MATCHER_TABLE| - k
  {
    if Fires(MATCHER_TABLE[k], i) then MATCHER_TABLE[k] else FirstFrom(i, k + 1)
  }

  method ApplyMatcher(i: MatchInput) returns (answer: Answer)
    ensures answer == Answer(Act(FirstMatch(i), i), FirstMatch(i))
  {
    assert Fires(MATCHER_TABLE[|MATCHER_TABLE| - 1], i);
    for k := 0 to |MATCHER_TABLE|
      invariant forall j :: 0 <= j < k ==> !Fires(MATCHER_TABLE[j], i)
    {
      var row := MATCHER_TABLE[k];
      if Fires(row, i) {
        return Answer(Act(row, i), row);
      }
    }
    assert false;
  }
}
