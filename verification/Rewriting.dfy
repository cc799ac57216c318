/**
 Rows 3 to 5 of the matcher as a rewriting system on paths: it always ends, at a normal form
 with a closed form, after at most one trim, then at most one collapse, then language hops.
 */
module Rewriting {
  import opened Common
  import opened Text
  import opened LangMatcher
  import Pages

  /** The next path under rows 3 to 5, if one of them fires. */
  function Hop(path: string, lang: string): Option<string> {
    if IsTrailing(path) then Some(Trimmed(path))
    else if IsDoubled(path) then Some(Collapsed(path))
    else if IsLangPrefixed(path, lang) then Some(Unprefixed(path, lang))
    else None
  }

  // ---- each hop shortens ----

  lemma {:induction false} TrimIs(path: string)
    ensures TrimSlashes(path) <= path && !EndsWithSlash(TrimSlashes(path))
    ensures EndsWithSlash(path) ==> |TrimSlashes(path)| < |path|
  {
    if EndsWithSlash(path) {
      TrimIs(path[..|path| - 1]);
    }
  }

  lemma {:induction false} CollapseEdges(path: string)
    ensures EndsWithSlash(Collapsed(path)) <==> EndsWithSlash(path)
    ensures Absolute(Collapsed(path)) <==> Absolute(path)
    ensures Collapsed(path) == "" <==> path == ""
  {
    if path != "" {
      CollapseEdges(path[..|path| - 1]);
    }
  }

  lemma {:induction false} CollapseIs(path: string)
    ensures !HasDoubleSlash(Collapsed(path))
    ensures if HasDoubleSlash(path) then |Collapsed(path)| < |path| else Collapsed(path) == path
  {
    if path != "" {
      var n := |path| - 1;
      var shorter := path[..n];
      CollapseIs(shorter);
      CollapseEdges(shorter);
      assert path == shorter + [path[n]];
      DoubleSlashSnoc(shorter, path[n]);
      DoubleSlashSnoc(Collapsed(shorter), path[n]);
    }
  }

  lemma HopShortens(path: string, lang: string)
    ensures Hop(path, lang).Some? ==> |Hop(path, lang).value| < |path|
  {
    TrimIs(path);
    CollapseIs(path);
    if !IsTrailing(path) && IsDoubled(path) {
      DoubledHasDouble(path);
    }
  }

  /** Row 4 overlooks a double slash only at the very front. */
  lemma DoubledHasDouble(path: string)
    ensures HasDoubleSlash(path) <==> IsDoubled(path) || (Absolute(path) && Absolute(path[1..]))
  {
    if Absolute(path) {
      assert path == [path[0]] + path[1..];
      DoubleSlashCons(path[0], path[1..]);
    }
  }

  /** Following rows 3 to 5 until none fires. */
  function NormalForm(path: string, lang: string): string
    decreases |path|
  {
    match Hop(path, lang)
    case None => path
    case Some(next) => HopShortens(path, lang); NormalForm(next, lang)
  }

  /** The rows that fire on the way, in order. */
  function Trace(path: string, lang: string): seq<Row>
    decreases |path|
  {
    match Hop(path, lang)
    case None => []
    case Some(next) =>
      HopShortens(path, lang);
      [if IsTrailing(path) then TrailingSlash else if IsDoubled(path) then DoubleSlash else DefaultLang] + Trace(next, lang)
  }

  // ---- the closed form ----

  /** What the trim and the collapse leave. */
  function Base(path: string): string {
    var trimmed := if IsTrailing(path) then Trimmed(path) else path;
    if IsDoubled(trimmed) then Collapsed(trimmed) else trimmed
  }

  predicate Clean(path: string) {
    !IsTrailing(path) && !IsDoubled(path)
  }

  lemma UnprefixShortens(path: string, lang: string)
    requires IsLangPrefixed(path, lang)
    ensures |Unprefixed(path, lang)| < |path|
  {
  }

  /** The language prefix removed as often as it is there. */
  function LangStripped(path: string, lang: string): string
    decreases |path|
  {
    if IsLangPrefixed(path, lang) then UnprefixShortens(path, lang); LangStripped(Unprefixed(path, lang), lang) else path
  }

  function LangHops(path: string, lang: string): seq<Row>
    decreases |path|
  {
    if IsLangPrefixed(path, lang) then UnprefixShortens(path, lang); [DefaultLang] + LangHops(Unprefixed(path, lang), lang) else []
  }

  lemma BaseIsClean(path: string)
    ensures Clean(Base(path))
    ensures IsTrailing(path) ==> !IsTrailing(Trimmed(path))
  {
    TrimIs(path);
    var trimmed := if IsTrailing(path) then Trimmed(path) else path;
    CollapseEdges(trimmed);
    CollapseIs(trimmed);
    DoubledHasDouble(Collapsed(trimmed));
  }

  lemma SuffixDouble(s: string, k: nat)
    requires k <= |s| && HasDoubleSlash(s[k..])
    ensures HasDoubleSlash(s)
  {
    var i :| 0 <= i < |s[k..]| && SlashPair(s[k..], i);
    assert SlashPair(s, k + i);
  }

  lemma UnprefixedIsClean(path: string, lang: string)
    requires Clean(path) && IsLangPrefixed(path, lang)
    ensures Clean(Unprefixed(path, lang))
  {
    var rest := Unprefixed(path, lang);
    if path[1..] != lang && IsDoubled(rest) {
      assert rest[1..] == path[1..][|lang| + 1..];
      SuffixDouble(path[1..], |lang| + 1);
    }
  }

  lemma {:induction false} CleanForm(path: string, lang: string)
    requires Clean(path)
    ensures NormalForm(path, lang) == LangStripped(path, lang) && Trace(path, lang) == LangHops(path, lang)
    decreases |path|
  {
    if IsLangPrefixed(path, lang) {
      UnprefixShortens(path, lang);
      UnprefixedIsClean(path, lang);
      CleanForm(Unprefixed(path, lang), lang);
    }
  }

  lemma AllLangHops(path: string, lang: string, i: nat)
    requires i < |LangHops(path, lang)|
    ensures LangHops(path, lang)[i] == DefaultLang
    decreases |path|
  {
    if i > 0 {
      UnprefixShortens(path, lang);
      AllLangHops(Unprefixed(path, lang), lang, i - 1);
    }
  }

  /** At most one trim, then at most one collapse, then language hops only; and where they lead. */
  lemma HopsInOrder(path: string, lang: string)
    ensures NormalForm(path, lang) == LangStripped(Base(path), lang)
    ensures var trimmed := if IsTrailing(path) then Trimmed(path) else path;
      Trace(path, lang) == (if IsTrailing(path) then [TrailingSlash] else [])
        + (if IsDoubled(trimmed) then [DoubleSlash] else []) + LangHops(Base(path), lang)
    ensures forall i :: 0 <= i < |LangHops(Base(path), lang)| ==> LangHops(Base(path), lang)[i] == DefaultLang
  {
    forall i | 0 <= i < |LangHops(Base(path), lang)| ensures LangHops(Base(path), lang)[i] == DefaultLang {
      AllLangHops(Base(path), lang, i);
    }
    BaseIsClean(path);
    CleanForm(Base(path), lang);
    HopShortens(path, lang);
    if IsTrailing(path) {
      HopShortens(Trimmed(path), lang);
    }
  }

  /** No row fires on a normal form, and a hop does not change where the path leads. */
  lemma {:induction false} NormalFormIsFinal(path: string, lang: string)
    ensures Hop(NormalForm(path, lang), lang) == None
    ensures Hop(path, lang).Some? ==> NormalForm(Hop(path, lang).value, lang) == NormalForm(path, lang)
    decreases |path|
  {
    if Hop(path, lang).Some? {
      HopShortens(path, lang);
      NormalFormIsFinal(Hop(path, lang).value, lang);
    }
  }

  // ---- the closed form, by segments ----

  predicate NotSlash(c: char) {
    c != '/'
  }

  /** The non-empty segments of a path. */
  function Segments(path: string): seq<string> {
    Runs(path, NotSlash)
  }

  predicate SlashFree(s: string) {
    forall i :: 0 <= i < |s| ==> s[i] != '/'
  }

  /** The segments of the language code removed from the front as often as they are there. */
  function DropLang(segments: seq<string>, code: seq<string>): seq<string> {
    if code != [] && code <= segments then DropLang(segments[|code|..], code) else segments
  }

  lemma {:induction false} TrimKeepsSegments(path: string)
    ensures Segments(TrimSlashes(path)) == Segments(path)
  {
    if EndsWithSlash(path) {
      var n := |path| - 1;
      TrimKeepsSegments(path[..n]);
      RunsSnoc(path[..n], path[n], NotSlash);
      assert path == path[..n] + [path[n]];
    }
  }

  lemma {:induction false} CollapseKeepsSegments(path: string)
    ensures Segments(Collapsed(path)) == Segments(path)
  {
    if path != "" {
      var n := |path| - 1;
      var shorter, c := path[..n], path[n];
      CollapseKeepsSegments(shorter);
      CollapseEdges(shorter);
      assert path == shorter + [c];
      RunsSnoc(shorter, c, NotSlash);
      RunsSnoc(Collapsed(shorter), c, NotSlash);
    }
  }

  /** A path that starts with a segment, holds no double slash and does not end in one, is its segments joined. */
  lemma {:induction false} JoinedSegments(s: string)
    requires !HasDoubleSlash(s) && !EndsWithSlash(s) && !Absolute(s)
    ensures s == Join(Segments(s), '/')
    decreases |s|
  {
    if s != "" {
      var n := RunLength(s, NotSlash);
      if n == |s| {
        WholeRun(s, NotSlash);
      } else {
        var w, rest := s[..n], s[n + 1..];
        assert s == w + ['/'] + rest && s[n..] == ['/'] + rest;
        if HasDoubleSlash(rest) {
          SuffixDouble(s, n + 1);
        }
        if Absolute(rest) {
          assert SlashPair(s, n);
        }
        JoinedSegments(rest);
        FirstRun(s, n, NotSlash);
        assert s[n..][1..] == rest;
        assert Segments(s) == [w] + Segments(rest);
        assert rest != "" && Segments(rest) != [];
      }
    }
  }

  /** A single leading double slash that no row removes. */
  predicate LoneDouble(path: string) {
    var trimmed := if IsTrailing(path) then Trimmed(path) else path;
    Absolute(trimmed) && Absolute(trimmed[1..]) && !IsDoubled(trimmed)
  }

  lemma BaseBySegments(path: string)
    requires Absolute(path)
    ensures Base(path) == (if LoneDouble(path) then "//" else "/") + Join(Segments(path), '/')
  {
    var trimmed := if IsTrailing(path) then Trimmed(path) else path;
    TrimIs(path);
    TrimKeepsSegments(path);
    BaseIsClean(path);
    SegmentsOfSlash();
    assert Segments(trimmed) == Segments(path) && Absolute(trimmed);
    CollapseEdges(trimmed);
    CollapseIs(trimmed);
    CollapseKeepsSegments(trimmed);
    var base := Base(path);
    var start := if LoneDouble(path) then 2 else 1;
    DoubledHasDouble(base);
    AfterSlashes(base, start);
  }

  lemma SegmentsOfSlash()
    ensures Segments("/") == [] && Segments("") == []
  {
  }

  lemma AfterSlashes(base: string, start: nat)
    requires Absolute(base) && (start == 1 || (start == 2 && Absolute(base[1..])))
    requires !IsTrailing(base) && !HasDoubleSlash(base[start - 1..]) && start <= |base|
    ensures base == base[..start] + Join(Segments(base), '/')
    ensures base[..start] == if start == 1 then "/" else "//"
  {
    var rest := base[start..];
    assert base[start - 1] == '/' by {
      assert start == 2 ==> base[1..][0] == base[1];
    }
    assert base[start - 1..] == ['/'] + rest;
    DoubleSlashCons('/', rest);
    JoinedSegments(rest);
    SkipSlash(base);
    if start == 2 {
      SkipSlash(base[1..]);
      assert base[1..][1..] == rest;
    }
  }

  lemma SkipSlash(s: string)
    requires Absolute(s)
    ensures Segments(s) == Segments(s[1..])
  {
  }

  ghost predicate SegmentList(ws: seq<string>) {
    forall w :: w in ws ==> w != "" && SlashFree(w)
  }

  /** Segments read across a slash. */
  lemma {:induction false} SegmentsAppend(a: string, b: string)
    requires b == "" || Absolute(b)
    ensures Segments(a + b) == Segments(a) + Segments(b)
    decreases |a|
  {
    var s := a + b;
    if a == "" {
      assert s == b && Segments(a) == [];
    } else if a[0] == '/' {
      assert s[1..] == a[1..] + b;
      SegmentsAppend(a[1..], b);
    } else {
      var n := RunLength(a, NotSlash);
      SameFirstRun(a, b, n);
      SegmentsAppend(a[n..], b);
      FirstRun(a, n, NotSlash);
      FirstRun(s, n, NotSlash);
      hide Runs, RunLength;
      assert [a[..n]] + (Segments(a[n..]) + Segments(b)) == [a[..n]] + Segments(a[n..]) + Segments(b);
    }
  }

  lemma SameFirstRun(a: string, b: string, n: nat)
    requires b == "" || Absolute(b)
    requires n == RunLength(a, NotSlash)
    ensures var s := a + b; RunLength(s, NotSlash) == n && s[..n] == a[..n] && s[n..] == a[n..] + b
  {
    var s := a + b;
    assert forall i :: 0 <= i < |a| ==> s[i] == a[i];
    assert RunLength(s, NotSlash) == n;
  }

  lemma {:induction false} SegmentsOfJoin(ws: seq<string>)
    requires SegmentList(ws)
    ensures Segments(Join(ws, '/')) == ws
  {
    SegmentsOfSlash();
    if ws != [] {
      var w := ws[0];
      assert w in ws;
      OneSegment(w);
      if |ws| > 1 {
        var rest := Join(ws[1..], '/');
        SegmentsOfJoin(ws[1..]);
        SegmentsAppend(w, "/" + rest);
        SkipSlash("/" + rest);
        assert ("/" + rest)[1..] == rest && w + "/" + rest == w + ("/" + rest);
      }
    }
  }

  lemma OneSegment(w: string)
    requires w != "" && SlashFree(w)
    ensures Segments(w) == [w]
  {
    assert RunLength(w, NotSlash) == |w|;
    WholeRun(w, NotSlash);
  }

  lemma {:induction false} JoinAppend(a: seq<string>, b: seq<string>)
    requires a != []
    ensures Join(a + b, '/') == Join(a, '/') + if b == [] then "" else "/" + Join(b, '/')
  {
    if b == [] {
      assert a + b == a;
    } else if |a| == 1 {
      assert (a + b)[1..] == b;
    } else {
      assert (a + b)[1..] == a[1..] + b;
      JoinAppend(a[1..], b);
    }
  }

  /** Joined segments neither begin nor end in a slash, and hold no double one. */
  lemma {:induction false} JoinShape(ws: seq<string>)
    requires SegmentList(ws)
    ensures var body := Join(ws, '/'); !Absolute(body) && !EndsWithSlash(body) && !HasDoubleSlash(body)
    ensures Join(ws, '/') == "" <==> ws == []
  {
    assert ws != [] ==> ws[0] in ws;
    if |ws| > 1 {
      JoinShape(ws[1..]);
      JoinedShape(ws[0], Join(ws[1..], '/'));
    }
  }

  lemma JoinedShape(w: string, rest: string)
    requires w != "" && SlashFree(w) && rest != "" && !Absolute(rest) && !EndsWithSlash(rest) && !HasDoubleSlash(rest)
    ensures var body := w + "/" + rest; !Absolute(body) && !EndsWithSlash(body) && !HasDoubleSlash(body)
  {
    var body := w + "/" + rest;
    forall i | 0 <= i < |body| ensures !SlashPair(body, i) {
      if i < |w| {
        assert body[i] == w[i];
      } else if i == |w| {
        assert body[i + 1] == rest[0];
      } else {
        assert !SlashPair(rest, i - |w| - 1);
      }
    }
  }

  /** The body begins with the code, and the code ends where a segment does. */
  predicate StartsAt(body: string, code: string) {
    StartsWith(body, code) && (body == code || body[|code|] == '/')
  }

  /** A code of one or more whole segments. */
  predicate Plain(code: string) {
    code != "" && code == Join(Segments(code), '/')
  }

  lemma WholePrefix(ws: seq<string>, code: string)
    requires SegmentList(ws) && code != "" && StartsAt(Join(ws, '/'), code)
    ensures Plain(code) && Segments(code) <= ws
  {
    var body := Join(ws, '/');
    var rest := body[|code|..];
    JoinShape(ws);
    SegmentsOfJoin(ws);
    assert body == code + rest && (rest == "" || rest[0] == '/');
    SegmentsAppend(code, rest);
    PrefixShape(code, rest);
    JoinedSegments(code);
  }

  lemma PrefixShape(code: string, rest: string)
    requires code != "" && (rest == "" || rest[0] == '/')
    requires !Absolute(code + rest) && !EndsWithSlash(code + rest) && !HasDoubleSlash(code + rest)
    ensures !Absolute(code) && !EndsWithSlash(code) && !HasDoubleSlash(code)
  {
    var body := code + rest;
    assert !SlashPair(body, |code| - 1);
    assert forall i :: 0 <= i < |code| ==> !SlashPair(body, i) && body[i] == code[i];
  }

  /** On joined segments the language row looks for the code's segments, and removes them. */
  lemma CodeIsSegments(ws: seq<string>, code: string)
    requires SegmentList(ws) && code != ""
    ensures StartsAt(Join(ws, '/'), code) <==> Plain(code) && Segments(code) <= ws
    ensures Plain(code) && Segments(code) <= ws ==>
      Join(ws, '/')[|code|..] == if |ws| == |Segments(code)| then "" else "/" + Join(ws[|Segments(code)|..], '/')
  {
    var ls := Segments(code);
    if StartsAt(Join(ws, '/'), code) {
      WholePrefix(ws, code);
    }
    if Plain(code) && ls <= ws {
      var tail := ws[|ls|..];
      assert ws == ls + tail;
      JoinAppend(ls, tail);
    }
  }

  /** The language row on a path of joined segments. */
  lemma HopOnSegments(ws: seq<string>, lang: string)
    requires SegmentList(ws)
    ensures var path := "/" + Join(ws, '/'); var ls := Segments(lang);
      && (IsLangPrefixed(path, lang) <==> Plain(lang) && ls <= ws)
      && (IsLangPrefixed(path, lang) ==> Unprefixed(path, lang) == "/" + Join(ws[|ls|..], '/'))
  {
    var body := Join(ws, '/');
    var path := "/" + body;
    assert path[1..] == body;
    if lang != "" {
      CodeIsSegments(ws, lang);
      assert |lang| <= |body| ==> path[1 + |lang|..] == body[|lang|..];
      hide Segments, Join;
      EmptyJoin();
    }
  }

  lemma EmptyJoin()
    ensures Join([], '/') == ""
  {
  }

  lemma {:induction false} StripBySegments(ws: seq<string>, lang: string)
    requires SegmentList(ws)
    ensures LangStripped("/" + Join(ws, '/'), lang)
      == "/" + Join(if Plain(lang) then DropLang(ws, Segments(lang)) else ws, '/')
    decreases |ws|
  {
    var ls := Segments(lang);
    HopOnSegments(ws, lang);
    if Plain(lang) && ls <= ws {
      PlainHasSegments(lang);
      StripBySegments(ws[|ls|..], lang);
    }
  }

  lemma PlainHasSegments(lang: string)
    ensures Plain(lang) ==> Segments(lang) != []
  {
  }

  /** Behind a lone double slash only a code that begins with a slash matches, and only once. */
  predicate SlashCode(lang: string, ws: seq<string>) {
    |lang| > 1 && lang[0] == '/' && Plain(lang[1..]) && Segments(lang[1..]) <= ws
  }

  lemma HopOnLoneDouble(ws: seq<string>, lang: string)
    requires SegmentList(ws) && ws != []
    ensures var path := "//" + Join(ws, '/');
      && (IsLangPrefixed(path, lang) <==> SlashCode(lang, ws))
      && (SlashCode(lang, ws) ==> Unprefixed(path, lang) == "/" + Join(ws[|Segments(lang[1..])|..], '/'))
  {
    var body := Join(ws, '/');
    var path := "//" + body;
    JoinShape(ws);
    assert path[1..] == "/" + body;
    SlashShift(body, lang);
    if |lang| > 1 {
      CodeIsSegments(ws, lang[1..]);
      assert |lang| <= |body| + 1 ==> path[1 + |lang|..] == body[|lang| - 1..];
      EmptyJoin();
    }
  }

  lemma SlashShift(body: string, lang: string)
    requires body != "" && !Absolute(body)
    ensures lang != "" && StartsAt("/" + body, lang) <==> |lang| > 1 && lang[0] == '/' && StartsAt(body, lang[1..])
  {
    var path := "/" + body;
    if |lang| > 0 {
      assert |lang| <= |path| ==> path[..|lang|][0] == path[0];
      assert 1 <= |lang| <= |path| ==> path[..|lang|][1..] == body[..|lang| - 1];
      assert lang == [lang[0]] + lang[1..];
      assert 1 < |lang| < |path| ==> path[|lang|] == body[|lang| - 1];
    }
  }

  lemma SlashIsNotPlain(lang: string)
    requires Absolute(lang)
    ensures !Plain(lang)
  {
    SegmentsAreSegments(lang);
    JoinShape(Segments(lang));
  }

  lemma SegmentsAreSegments(s: string)
    ensures SegmentList(Segments(s))
  {
  }

  lemma LoneDoubleForm(ws: seq<string>, lang: string)
    requires SegmentList(ws) && ws != []
    ensures LangStripped("//" + Join(ws, '/'), lang)
      == if SlashCode(lang, ws) then "/" + Join(ws[|Segments(lang[1..])|..], '/') else "//" + Join(ws, '/')
  {
    hide Join, Segments, Plain;
    HopOnLoneDouble(ws, lang);
    if SlashCode(lang, ws) {
      SlashIsNotPlain(lang);
      StripBySegments(ws[|Segments(lang[1..])|..], lang);
    }
  }

  /** Where a path of these segments ends up. */
  function Landing(ws: seq<string>, lone: bool, lang: string): string {
    if !lone then "/" + Join(if Plain(lang) then DropLang(ws, Segments(lang)) else ws, '/')
    else if SlashCode(lang, ws) then "/" + Join(ws[|Segments(lang[1..])|..], '/')
    else "//" + Join(ws, '/')
  }

  /**
   The normal form of any site-absolute path under any language code: its non-empty segments without
   the code's leading segments, joined. A lone double slash at the front, which row 4 overlooks,
   stays, and shields the segments from any code that does not itself begin with a slash.
   */
  lemma NormalFormBySegments(path: string, lang: string)
    requires Absolute(path)
    ensures NormalForm(path, lang) == Landing(Segments(path), LoneDouble(path), lang)
  {
    hide NormalForm, LangStripped, Base, Join, DropLang, LangHops, Trace, LoneDouble, Plain, SlashCode, Segments;
    HopsInOrder(path, lang);
    BaseBySegments(path);
    var ws := Segments(path);
    SegmentsAreSegments(path);
    if LoneDouble(path) {
      LoneHasSegments(path);
      LoneDoubleForm(ws, lang);
    } else {
      StripBySegments(ws, lang);
    }
  }

  lemma LoneHasSegments(path: string)
    requires Absolute(path) && LoneDouble(path)
    ensures Segments(path) != []
  {
    hide LoneDouble, Base, Segments;
    BaseBySegments(path);
    BaseIsClean(path);
    EmptyJoin();
  }

  /** An ordinary language code is one segment, and the landing drops it wherever it leads. */
  lemma OrdinaryCode(lang: string)
    requires lang != "" && SlashFree(lang)
    ensures Plain(lang) && Segments(lang) == [lang] && forall ws :: !SlashCode(lang, ws)
  {
    OneSegment(lang);
  }

  /** Two paths with the same segments end up at the same path exactly when both keep a lone double slash or neither does. */
  lemma SameSegmentsMeet(a: string, b: string, lang: string)
    requires Absolute(a) && Absolute(b) && Segments(a) == Segments(b)
    ensures NormalForm(a, lang) == NormalForm(b, lang) <==> (LoneDouble(a) <==> LoneDouble(b))
  {
    NormalFormBySegments(a, lang);
    NormalFormBySegments(b, lang);
    SegmentsAreSegments(a);
    hide NormalForm, LoneDouble, Segments;
    if LoneDouble(a) != LoneDouble(b) {
      if LoneDouble(a) {
        LoneHasSegments(a);
      } else {
        LoneHasSegments(b);
      }
      LandingsDiffer(Segments(a), lang);
    }
  }

  lemma LandingsDiffer(ws: seq<string>, lang: string)
    requires SegmentList(ws) && ws != []
    ensures Landing(ws, true, lang) != Landing(ws, false, lang)
  {
    var ls := Segments(if |lang| > 0 then lang[1..] else "");
    if SlashCode(lang, ws) {
      SlashIsNotPlain(lang);
      PlainHasSegments(lang[1..]);
      var rest := ws[|ls|..];
      SegmentsOfJoin(ws);
      SegmentsOfJoin(rest);
      assert ("/" + Join(ws, '/'))[1..] == Join(ws, '/') && ("/" + Join(rest, '/'))[1..] == Join(rest, '/');
    } else {
      var left := if Plain(lang) then DropLang(ws, Segments(lang)) else ws;
      DropIsSegments(ws, Segments(lang));
      JoinShape(left);
      assert ("//" + Join(ws, '/'))[1] == '/';
      assert left != [] ==> ("/" + Join(left, '/'))[1] == Join(left, '/')[0];
    }
  }

  lemma {:induction false} DropIsSegments(ws: seq<string>, code: seq<string>)
    requires SegmentList(ws)
    ensures SegmentList(DropLang(ws, code))
    decreases |ws|
  {
    if code != [] && code <= ws {
      DropIsSegments(ws[|code|..], code);
    }
  }

  // ---- stored urls ----

  /** The urls the page verbs accept are exactly the site-absolute paths no slash row touches. */
  lemma ValidUrlsAreFixed(url: string)
    ensures Pages.ValidateUrl(url).Ok? <==> Absolute(url) && NormalForm(url, "") == url
  {
    if Absolute(url) {
      HopShortens(url, "");
      if Hop(url, "").Some? {
        NormalFormShrinks(Hop(url, "").value, "");
      }
    }
  }

  lemma {:induction false} NormalFormShrinks(path: string, lang: string)
    ensures |NormalForm(path, lang)| <= |path|
    decreases |path|
  {
    if Hop(path, lang).Some? {
      HopShortens(path, lang);
      NormalFormShrinks(Hop(path, lang).value, lang);
    }
  }
}
