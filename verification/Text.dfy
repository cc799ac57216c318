/**
 String operations of the standard library the verbs rely on: trimming, byte length, prefixes.
 */
module Text {

  predicate StartsWith(s: string, prefix: string) {
    |prefix| <= |s| && s[..|prefix|] == prefix
  }

  predicate Absolute(s: string) {
    |s| > 0 && s[0] == '/'
  }

  predicate EndsWithSlash(s: string) {
    |s| > 0 && s[|s| - 1] == '/'
  }

  /** s.contains("//") */
  predicate HasDoubleSlash(s: string) {
    exists i :: 0 <= i < |s| && SlashPair(s, i)
  }

  predicate SlashPair(s: string, i: nat) {
    i + 1 < |s| && s[i] == '/' && s[i + 1] == '/'
  }

  /** A double slash appears with the last character or was there before it. */
  lemma DoubleSlashSnoc(s: string, c: char)
    ensures HasDoubleSlash(s + [c]) <==> HasDoubleSlash(s) || (c == '/' && EndsWithSlash(s))
  {
    var t := s + [c];
    if i :| 0 <= i < |t| && SlashPair(t, i) {
      assert i < |s| - 1 ==> SlashPair(s, i);
    }
    if i :| 0 <= i < |s| && SlashPair(s, i) {
      assert SlashPair(t, i);
    }
    if c == '/' && EndsWithSlash(s) {
      assert SlashPair(t, |s| - 1);
    }
  }

  lemma DoubleSlashCons(c: char, s: string)
    ensures HasDoubleSlash([c] + s) <==> HasDoubleSlash(s) || (c == '/' && Absolute(s))
  {
    var t := [c] + s;
    if i :| 0 <= i < |t| && SlashPair(t, i) {
      assert i > 0 ==> SlashPair(s, i - 1);
    }
    if i :| 0 <= i < |s| && SlashPair(s, i) {
      assert SlashPair(t, i + 1);
    }
    if c == '/' && Absolute(s) {
      assert SlashPair(t, 0);
    }
  }

  /** The Unicode White_Space property. */
  predicate IsSpace(c: char) {
    || '\U{9}' <= c <= '\U{D}' || c == ' ' || c == '\U{85}' || c == '\U{A0}' || c == '\U{1680}'
    || '\U{2000}' <= c <= '\U{200A}' || c == '\U{2028}' || c == '\U{2029}' || c == '\U{202F}'
    || c == '\U{205F}' || c == '\U{3000}'
  }

  function TrimStart(s: string): (r: string)
    ensures r != "" ==> !IsSpace(r[0])
    ensures |r| <= |s|
  {
    if s != "" && IsSpace(s[0]) then TrimStart(s[1..]) else s
  }

  function TrimEnd(s: string): (r: string)
    ensures r <= s
    ensures r != "" ==> !IsSpace(r[|r| - 1])
  {
    if s != "" && IsSpace(s[|s| - 1]) then TrimEnd(s[..|s| - 1]) else s
  }

  function Trim(s: string): string {
    TrimEnd(TrimStart(s))
  }

  lemma TrimKeepsAbsolute(s: string)
    requires Absolute(s)
    ensures Absolute(Trim(s))
    decreases |s|
  {
    TrimEndKeepsHead(s);
  }

  lemma {:induction false} TrimEndKeepsHead(s: string)
    requires s != "" && !IsSpace(s[0])
    ensures TrimEnd(s) != "" && TrimEnd(s)[0] == s[0]
  {
    if IsSpace(s[|s| - 1]) {
      TrimEndKeepsHead(s[..|s| - 1]);
    }
  }

  /** btrim(s) = '': nothing but spaces. */
  predicate SpacesOnly(s: string) {
    forall i :: 0 <= i < |s| ==> s[i] == ' '
  }

  /** String::len: the length of the UTF-8 encoding. */
  function ByteLength(s: string): nat {
    if s == "" then 0 else ByteWidth(s[0]) + ByteLength(s[1..])
  }

  function ByteWidth(c: char): nat {
    if c as int < 0x80 then 1 else if c as int < 0x800 then 2 else if c as int < 0x10000 then 3 else 4
  }

  // ---- splitting and joining ----

  /** split(c): the pieces between occurrences of c, empty ones included. */
  function SplitOn(s: string, c: char): (r: seq<string>)
    ensures r != []
  {
    if s == "" then [""]
    else
      var rest := SplitOn(s[1..], c);
      if s[0] == c then [""] + rest else [[s[0]] + rest[0]] + rest[1..]
  }

  /** The piece after the last c, or the whole string. */
  function AfterLast(s: string, c: char): string {
    if s == "" || s[|s| - 1] == c then "" else AfterLast(s[..|s| - 1], c) + [s[|s| - 1]]
  }

  /** One more character after the pieces. */
  function PieceSnoc(pieces: seq<string>, x: char, c: char): seq<string>
    requires pieces != []
  {
    if x == c then pieces + [""] else pieces[..|pieces| - 1] + [pieces[|pieces| - 1] + [x]]
  }

  /** Splitting read from the right: a character extends the last piece or opens one. */
  lemma {:induction false} SplitSnoc(s: string, x: char, c: char)
    ensures SplitOn(s + [x], c) == PieceSnoc(SplitOn(s, c), x, c)
    decreases |s|
  {
    var t := s + [x];
    if s == "" {
      assert t == [x] && t[1..] == "" && SplitOn("", c) == [""];
      SplitHead(t, c);
      assert [x] + "" == [x] && [[x]] + [""][1..] == [[x]] && [""][..0] + [[x]] == [[x]];
    } else {
      assert t[1..] == s[1..] + [x] && t[0] == s[0];
      SplitSnoc(s[1..], x, c);
      SplitHead(s, c);
      SplitHead(t, c);
      var rest := SplitOn(s[1..], c);
      hide SplitOn;
      if s[0] == c {
        ConsSnoc("", rest, x, c);
      } else {
        LongerSnoc(s[0], rest, x, c);
      }
    }
  }

  /** A piece in front stays in front. */
  lemma ConsSnoc(first: string, rest: seq<string>, x: char, c: char)
    requires rest != []
    ensures PieceSnoc([first] + rest, x, c) == [first] + PieceSnoc(rest, x, c)
  {
  }

  /** A character in front of the first piece stays there. */
  lemma LongerSnoc(d: char, rest: seq<string>, x: char, c: char)
    requires rest != []
    ensures var after := PieceSnoc(rest, x, c);
      PieceSnoc([[d] + rest[0]] + rest[1..], x, c) == [[d] + after[0]] + after[1..]
  {
    var after, pieces := PieceSnoc(rest, x, c), [[d] + rest[0]] + rest[1..];
    if |rest| == 1 {
      assert [d] + rest[0] + [x] == [d] + (rest[0] + [x]);
      assert x != c ==> after == [rest[0] + [x]];
    } else {
      assert after[0] == rest[0];
      assert pieces[|pieces| - 1] == rest[|rest| - 1];
    }
  }

  lemma SplitHead(s: string, c: char)
    requires s != ""
    ensures var rest := SplitOn(s[1..], c);
      SplitOn(s, c) == if s[0] == c then [""] + rest else [[s[0]] + rest[0]] + rest[1..]
  {
  }

  /** The last piece of a split. */
  lemma {:induction false} LastOfSplit(s: string, c: char)
    ensures SplitOn(s, c)[|SplitOn(s, c)| - 1] == AfterLast(s, c)
    decreases |s|
  {
    if s != "" {
      var n := |s| - 1;
      LastOfSplit(s[..n], c);
      SplitSnoc(s[..n], s[n], c);
      assert s == s[..n] + [s[n]];
    }
  }

  /** Trimming the end of a string trims the end of its last piece, and no further. */
  lemma {:induction false} SplitTrimmed(s: string, c: char)
    requires !IsSpace(c)
    ensures var pieces := SplitOn(s, c);
      SplitOn(TrimEnd(s), c) == pieces[..|pieces| - 1] + [TrimEnd(pieces[|pieces| - 1])]
    decreases |s|
  {
    if s == "" {
      assert SplitOn(s, c) == [""] && TrimEnd("") == "";
    } else {
      var n := |s| - 1;
      var before, x := s[..n], s[n];
      assert s == before + [x];
      SplitSnoc(before, x, c);
      var pieces := SplitOn(before, c);
      var last := pieces[|pieces| - 1];
      if IsSpace(x) {
        SplitTrimmed(before, c);
        assert (last + [x])[..|last|] == last;
      } else if x != c {
        assert TrimEnd(last + [x]) == last + [x];
      } else {
        assert (pieces + [""])[..|pieces|] == pieces && TrimEnd("") == "";
      }
    }
  }

  /** Trimming a string whose head ends in no space trims its tail. */
  lemma {:induction false} TrimEndSuffix(a: string, b: string)
    requires a != "" && !IsSpace(a[|a| - 1])
    ensures TrimEnd(a + b) == a + TrimEnd(b)
    decreases |b|
  {
    if b == "" {
      assert a + b == a;
    } else {
      var n := |b| - 1;
      TrimEndSuffix(a, b[..n]);
      assert (a + b)[..|a| + n] == a + b[..n];
    }
  }

  /** The length of the longest prefix of kept characters. */
  function RunLength(s: string, keep: char -> bool): (n: nat)
    ensures n <= |s|
    ensures forall i :: 0 <= i < n ==> keep(s[i])
    ensures n < |s| ==> !keep(s[n])
  {
    if s == "" || !keep(s[0]) then 0 else 1 + RunLength(s[1..], keep)
  }

  /** The maximal runs of kept characters. */
  function Runs(s: string, keep: char -> bool): (r: seq<string>)
    ensures forall w :: w in r ==> w != "" && forall i :: 0 <= i < |w| ==> keep(w[i])
  {
    if s == "" then []
    else if !keep(s[0]) then Runs(s[1..], keep)
    else
      var n := RunLength(s, keep);
      [s[..n]] + Runs(s[n..], keep)
  }

  /** join(c) */
  function Join(ws: seq<string>, c: char): string {
    if |ws| == 0 then "" else if |ws| == 1 then ws[0] else ws[0] + [c] + Join(ws[1..], c)
  }

  lemma RunLengthSnoc(s: string, c: char, keep: char -> bool)
    ensures RunLength(s + [c], keep)
      == if RunLength(s, keep) < |s| then RunLength(s, keep) else if keep(c) then |s| + 1 else |s|
  {
    if s == "" {
      assert (s + [c])[1..] == "";
    } else {
      assert (s + [c])[1..] == s[1..] + [c];
      RunLengthSnoc(s[1..], c, keep);
    }
  }

  function RunsPlus(runs: seq<string>, c: char, kept: bool, open: bool): seq<string> {
    if !kept then runs
    else if open && runs != [] then runs[..|runs| - 1] + [runs[|runs| - 1] + [c]]
    else runs + [[c]]
  }

  lemma RunsPlusCons(w: string, runs: seq<string>, c: char, kept: bool, open: bool)
    requires open ==> runs != []
    ensures RunsPlus([w] + runs, c, kept, open) == [w] + RunsPlus(runs, c, kept, open)
  {
  }

  predicate EndsKept(s: string, keep: char -> bool) {
    s != "" && keep(s[|s| - 1])
  }

  lemma WholeRun(s: string, keep: char -> bool)
    requires s != "" && RunLength(s, keep) == |s|
    ensures Runs(s, keep) == [s]
  {
    assert s[..|s|] == s && s[|s|..] == "";
  }

  lemma FirstRun(s: string, n: nat, keep: char -> bool)
    requires s != "" && keep(s[0]) && n == RunLength(s, keep)
    ensures Runs(s, keep) == [s[..n]] + Runs(s[n..], keep)
  {
  }

  lemma OneRunSnoc(s: string, c: char, keep: char -> bool)
    requires s != "" && RunLength(s, keep) == |s|
    ensures Runs(s, keep) == [s]
    ensures Runs(s + [c], keep) == if keep(c) then [s + [c]] else [s]
  {
    WholeRun(s, keep);
    RunLengthSnoc(s, c, keep);
    var t := s + [c];
    if keep(c) {
      WholeRun(t, keep);
    } else {
      FirstRun(t, |s|, keep);
      assert t[..|s|] == s && t[|s|..] == [c] && [c][1..] == "";
    }
  }

  /** Runs read from the right: a kept character extends the last run or opens one. */
  lemma {:induction false} RunsSnoc(s: string, c: char, keep: char -> bool)
    ensures Runs(s + [c], keep) == RunsPlus(Runs(s, keep), c, keep(c), EndsKept(s, keep))
    ensures EndsKept(s, keep) ==> Runs(s, keep) != []
    decreases |s|
  {
    var t := s + [c];
    if s == "" {
      assert t == [c];
      if keep(c) {
        WholeRun(t, keep);
      } else {
        assert t[1..] == "";
      }
    } else if !keep(s[0]) {
      assert t[1..] == s[1..] + [c];
      RunsSnoc(s[1..], c, keep);
    } else if RunLength(s, keep) == |s| {
      OneRunSnoc(s, c, keep);
    } else {
      var n := RunLength(s, keep);
      RunsSnoc(s[n..], c, keep);
      RunsSnocLater(s, c, n, keep);
    }
  }

  lemma RunsSnocLater(s: string, c: char, n: nat, keep: char -> bool)
    requires s != "" && keep(s[0]) && n == RunLength(s, keep) < |s|
    requires Runs(s[n..] + [c], keep) == RunsPlus(Runs(s[n..], keep), c, keep(c), EndsKept(s[n..], keep))
    requires EndsKept(s[n..], keep) ==> Runs(s[n..], keep) != []
    ensures Runs(s + [c], keep) == RunsPlus(Runs(s, keep), c, keep(c), EndsKept(s, keep))
  {
    hide Runs, RunLength;
    var t, rest, w, open := s + [c], s[n..], s[..n], EndsKept(s, keep);
    assert EndsKept(rest, keep) == open;
    RunLengthSnoc(s, c, keep);
    FirstRun(s, n, keep);
    FirstRun(t, n, keep);
    assert t[..n] == w && t[n..] == rest + [c];
    var runs := Runs(rest, keep);
    RunsPlusCons(w, runs, c, keep(c), open);
  }
}
