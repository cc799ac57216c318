/**
 The one slug utility: folding a name to lowercase kebab, and a slug that ends in the row's id.
 */
module Slug {
  import opened Common
  import opened Text

  const SLUG_MAX := 120
  const BASE_FALLBACK := "page"

  // ---- folding ----

  predicate IsSlugLetter(c: char) {
    'a' <= c <= 'z' || '0' <= c <= '9'
  }

  predicate IsAlnum(c: char) {
    IsSlugLetter(c) || 'A' <= c <= 'Z'
  }

  function Lower(c: char): char {
    if 'A' <= c <= 'Z' then (c as int + 32) as char else c
  }

  /** A letter or digit in lower case, a dash, or nothing. */
  function SlugChar(c: char): Option<char> {
    if IsAlnum(c) then Some(Lower(c)) else if c == '-' then Some('-') else None
  }

  function LowerAll(s: string): (r: string)
    ensures |r| == |s| && forall i :: 0 <= i < |s| ==> r[i] == Lower(s[i])
  {
    seq(|s|, i requires 0 <= i < |s| => Lower(s[i]))
  }

  function LowerEach(ws: seq<string>): (r: seq<string>)
    ensures |r| == |ws| && forall i :: 0 <= i < |ws| ==> r[i] == LowerAll(ws[i])
  {
    seq(|ws|, i requires 0 <= i < |ws| => LowerAll(ws[i]))
  }

  /** The maximal runs of ASCII letters and digits, in lower case, joined by dashes. */
  function Folded(input: string): string {
    Join(LowerEach(Runs(input, IsAlnum)), '-')
  }

  lemma {:induction false} JoinLast(ws: seq<string>, w: string)
    ensures Join(ws + [w], '-') == if ws == [] then w else Join(ws, '-') + "-" + w
  {
    if |ws| > 0 {
      assert (ws + [w])[1..] == ws[1..] + [w];
      JoinLast(ws[1..], w);
    }
  }

  lemma {:induction false} JoinIsEmpty(ws: seq<string>)
    requires forall w :: w in ws ==> w != ""
    ensures Join(ws, '-') == "" <==> ws == []
  {
    if ws != [] {
      assert ws[0] in ws;
    }
  }

  /** What one more character does to the joined runs. */
  lemma FoldedSnoc(s: string, c: char)
    ensures Folded(s + [c])
      == if !IsAlnum(c) then Folded(s)
         else if EndsKept(s, IsAlnum) || Folded(s) == "" then Folded(s) + [Lower(c)]
         else Folded(s) + ['-', Lower(c)]
  {
    hide Runs, Join;
    RunsSnoc(s, c, IsAlnum);
    var runs := Runs(s, IsAlnum);
    JoinIsEmpty(LowerEach(runs));
    if IsAlnum(c) {
      SnocJoined(runs, c, EndsKept(s, IsAlnum));
    }
  }

  lemma SnocJoined(runs: seq<string>, c: char, open: bool)
    requires open ==> runs != []
    ensures Join(LowerEach(RunsPlus(runs, c, true, open)), '-')
      == Join(LowerEach(runs), '-') + if open || runs == [] then [Lower(c)] else ['-', Lower(c)]
  {
    hide Join, LowerEach, LowerAll;
    if open {
      LastRunGrows(runs, c);
    } else {
      NewRunOpens(runs, c);
    }
  }

  lemma LastRunGrows(runs: seq<string>, c: char)
    requires runs != []
    ensures Join(LowerEach(runs[..|runs| - 1] + [runs[|runs| - 1] + [c]]), '-') == Join(LowerEach(runs), '-') + [Lower(c)]
  {
    hide Join;
    var n := |runs| - 1;
    var front, last, grown := LowerEach(runs[..n]), LowerAll(runs[n]), LowerAll(runs[n] + [c]);
    assert grown == last + [Lower(c)];
    assert LowerEach(runs) == front + [last];
    assert LowerEach(runs[..n] + [runs[n] + [c]]) == front + [grown];
    JoinLast(front, last);
    JoinLast(front, grown);
    var before := Join(front, '-') + "-";
    assert before + (last + [Lower(c)]) == before + last + [Lower(c)];
  }

  lemma NewRunOpens(runs: seq<string>, c: char)
    ensures Join(LowerEach(runs + [[c]]), '-') == Join(LowerEach(runs), '-') + if runs == [] then [Lower(c)] else ['-', Lower(c)]
  {
    hide Join;
    var lowered := LowerEach(runs);
    assert LowerAll([c]) == [Lower(c)];
    assert LowerEach(runs + [[c]]) == lowered + [[Lower(c)]];
    JoinLast(lowered, [Lower(c)]);
    EmptyJoin();
    if runs != [] {
      assert Join(lowered, '-') + "-" + [Lower(c)] == Join(lowered, '-') + ['-', Lower(c)];
    }
  }

  lemma EmptyJoin()
    ensures Join([], '-') == ""
  {
  }

  lemma SlugCharIs(c: char)
    ensures SlugChar(c).Some? && SlugChar(c).value != '-' <==> IsAlnum(c)
    ensures IsAlnum(c) ==> SlugChar(c) == Some(Lower(c))
  {
  }

  /** One round of the automaton: the pending dash goes out before the next letter or digit. */
  lemma KebabStep(s: string, c: char, out: string, pending: bool)
    requires out == Folded(s) && (pending <==> out != "" && !EndsKept(s, IsAlnum))
    ensures Folded(s + [c]) == if !IsAlnum(c) then out else if pending then out + ['-'] + [Lower(c)] else out + [Lower(c)]
    ensures EndsKept(s + [c], IsAlnum) == IsAlnum(c)
  {
    hide Folded;
    FoldedSnoc(s, c);
  }

  lemma FoldedEmpty()
    ensures Folded("") == "" && !EndsKept("", IsAlnum)
  {
  }

  method Kebab(input: string) returns (out: string)
    ensures out == Folded(input)
  {
    FoldedEmpty();
    hide Folded, EndsKept, SlugChar, IsAlnum, Lower;
    out := "";
    var pendingDash := false;
    assert input[..0] == "";
    for k := 0 to |input|
      invariant out == Folded(input[..k])
      invariant pendingDash <==> out != "" && !EndsKept(input[..k], IsAlnum)
    {
      var c := input[k];
      KebabStep(input[..k], c, out, pendingDash);
      SlugCharIs(c);
      assert input[..k + 1] == input[..k] + [c];
      var mapped := SlugChar(c);
      if mapped.Some? && mapped.value != '-' {
        if pendingDash {
          out := out + ['-'];
          pendingDash := false;
        }
        out := out + [mapped.value];
      } else {
        pendingDash := out != "";
      }
    }
    assert input[..|input|] == input;
  }

  // ---- the fixed points ----

  /** Lowercase kebab: letters, digits and single inner dashes. */
  ghost predicate IsKebab(s: string) {
    && (forall i :: 0 <= i < |s| ==> IsSlugLetter(s[i]) || s[i] == '-')
    && (s != "" ==> s[0] != '-' && s[|s| - 1] != '-')
    && (forall i :: 0 <= i < |s| - 1 ==> s[i] != '-' || s[i + 1] != '-')
  }

  lemma KebabGrows(s: string, c: char)
    requires IsKebab(s) && IsSlugLetter(c)
    ensures IsKebab(s + [c]) && (s != "" ==> IsKebab(s + ['-', c]))
  {
  }

  lemma LowerIsSlugLetter(c: char)
    requires IsAlnum(c)
    ensures IsSlugLetter(Lower(c))
  {
  }

  lemma {:induction false} FoldedIsKebab(s: string)
    ensures IsKebab(Folded(s))
  {
    hide IsKebab, Folded, Lower, IsAlnum;
    if s == "" {
      EmptyFold();
      EmptyIsKebab();
    } else {
      var before, c := s[..|s| - 1], s[|s| - 1];
      FoldedIsKebab(before);
      FoldedSnoc(before, c);
      assert s == before + [c];
      if IsAlnum(c) {
        LowerIsSlugLetter(c);
        KebabGrows(Folded(before), Lower(c));
      }
    }
  }

  lemma EmptyIsKebab()
    ensures IsKebab("")
  {
  }

  lemma KebabAt(s: string, n: nat)
    requires IsKebab(s) && 0 < n <= |s|
    ensures IsSlugLetter(s[n - 1]) || (s[n - 1] == '-' && n > 1 && IsSlugLetter(s[n - 2]))
  {
  }

  /** A prefix of kebab folds to itself, but for a dash it was cut after. */
  lemma {:induction false} KebabPrefixIsFixed(s: string, n: nat)
    requires IsKebab(s) && n <= |s|
    ensures Folded(s[..n]) == if n > 0 && s[n - 1] == '-' then s[..n - 1] else s[..n]
  {
    hide IsKebab, Folded;
    if n == 0 {
      EmptyFold();
      assert s[..0] == "";
    } else {
      var before, c := s[..n - 1], s[n - 1];
      KebabAt(s, n);
      KebabPrefixIsFixed(s, n - 1);
      FoldedSnoc(before, c);
      assert s[..n] == before + [c];
      if n > 1 {
        assert before == s[..n - 2] + [s[n - 2]] && before[n - 2] == s[n - 2];
        KebabAt(s, n - 1);
      }
    }
  }

  lemma EmptyFold()
    ensures Folded("") == ""
  {
  }

  /** The fold leaves a string alone exactly when it is kebab already; so folding twice is folding once. */
  lemma FixedIffKebab(s: string)
    ensures Folded(s) == s <==> IsKebab(s)
    ensures Folded(Folded(s)) == Folded(s)
  {
    FoldedIsKebab(s);
    KebabPrefixIsFixed(Folded(s), |Folded(s)|);
    assert Folded(s)[..|Folded(s)|] == Folded(s);
    if IsKebab(s) {
      KebabPrefixIsFixed(s, |s|);
      assert s[..|s|] == s;
    }
  }

  /** The fold keeps exactly the ASCII letters and digits, in lower case: nothing else comes out, and a word of them comes out whole. */
  lemma FoldedLetters(s: string)
    ensures forall i :: 0 <= i < |Folded(s)| ==> var c := Folded(s)[i]; 'a' <= c <= 'z' || '0' <= c <= '9' || c == '-'
    ensures (forall i :: 0 <= i < |s| ==> 'a' <= s[i] <= 'z' || '0' <= s[i] <= '9') ==> Folded(s) == s
    ensures (forall i :: 0 <= i < |s| ==> 'A' <= s[i] <= 'Z') ==>
      |Folded(s)| == |s| && forall i :: 0 <= i < |s| ==> Folded(s)[i] as int == s[i] as int + 32
  {
    FoldedIsKebab(s);
    if forall i :: 0 <= i < |s| ==> 'a' <= s[i] <= 'z' || '0' <= s[i] <= '9' {
      FixedIffKebab(s);
    }
    if forall i :: 0 <= i < |s| ==> 'A' <= s[i] <= 'Z' {
      UpperRun(s);
    }
  }

  lemma UpperRun(s: string)
    requires forall i :: 0 <= i < |s| ==> 'A' <= s[i] <= 'Z'
    ensures |Folded(s)| == |s| && forall i :: 0 <= i < |s| ==> Folded(s)[i] as int == s[i] as int + 32
  {
    if s == "" {
      EmptyFold();
    } else {
      AllKept(s);
      WholeRun(s, IsAlnum);
      assert LowerEach([s]) == [LowerAll(s)];
    }
  }

  lemma {:induction false} AllKept(s: string)
    requires forall i :: 0 <= i < |s| ==> IsAlnum(s[i])
    ensures RunLength(s, IsAlnum) == |s|
  {
    if s != "" {
      AllKept(s[1..]);
    }
  }

  // ---- the id arm ----

  /** A 128-bit uuid, or a 64-bit integer. */
  newtype Uuid128 = x: int | 0 <= x < 0x1_0000_0000_0000_0000_0000_0000_0000_0000
  newtype Int64 = x: int | -0x8000_0000_0000_0000 <= x < 0x8000_0000_0000_0000

  datatype SlugId = Uuid(id: Uuid128) | Int(n: Int64)

  function UnsignedAbs(n: Int64): nat {
    if n < 0 then -(n as int) else n as int
  }

  function DigitChar(d: nat): (c: char)
    requires d < 16
    ensures IsSlugLetter(c)
  {
    if d < 10 then ('0' as int + d) as char else ('a' as int + d - 10) as char
  }

  function DigitValue(c: char): nat {
    if '0' <= c <= '9' then c as int - '0' as int else if 'a' <= c <= 'f' then c as int - 'a' as int + 10 else 0
  }

  /** The `width` lowest hexadecimal digits of n, most significant first. */
  function Hex(n: nat, width: nat): (s: string)
    ensures |s| == width && forall i :: 0 <= i < |s| ==> IsSlugLetter(s[i])
  {
    if width == 0 then "" else Hex(n / 16, width - 1) + [DigitChar(n % 16)]
  }

  function Decimal(n: nat): (s: string)
    ensures s != "" && forall i :: 0 <= i < |s| ==> IsSlugLetter(s[i])
  {
    if n < 10 then [DigitChar(n)] else Decimal(n / 10) + [DigitChar(n % 10)]
  }

  /** The number the digits of s write in the radix; dashes are skipped. */
  function Value(s: string, radix: nat): nat {
    if s == "" then 0
    else
      var n := |s| - 1;
      if s[n] == '-' then Value(s[..n], radix) else Value(s[..n], radix) * radix + DigitValue(s[n])
  }

  function Power16(k: nat): nat {
    if k == 0 then 1 else 16 * Power16(k - 1)
  }

  lemma {:induction false} HexValue(n: nat, width: nat)
    requires n < Power16(width)
    ensures Value(Hex(n, width), 16) == n
  {
    if width > 0 {
      HexValue(n / 16, width - 1);
      var s := Hex(n, width);
      assert s[..width - 1] == Hex(n / 16, width - 1);
    }
  }

  lemma {:induction false} DecimalValue(n: nat)
    ensures Value(Decimal(n), 10) == n
  {
    var s := Decimal(n);
    if n < 10 {
      assert s[..0] == "";
    } else {
      DecimalValue(n / 10);
      assert s[..|s| - 1] == Decimal(n / 10);
    }
  }

  /** Inserting dashes does not change the value. */
  lemma {:induction false} DashSkipped(a: string, b: string, radix: nat)
    ensures Value(a + "-" + b, radix) == Value(a + b, radix)
  {
    var s, t := a + "-" + b, a + b;
    if b == "" {
      assert s[..|s| - 1] == a && t == a;
    } else {
      var m := |b| - 1;
      DashSkipped(a, b[..m], radix);
      assert s[..|s| - 1] == a + "-" + b[..m] && t[..|t| - 1] == a + b[..m];
    }
  }

  /** The hyphenated form of a uuid: 8-4-4-4-12. */
  function Hyphenated(u: Uuid128): (s: string)
    ensures |s| == 36
  {
    var h := Hex(u as nat, 32);
    h[..8] + "-" + h[8..12] + "-" + h[12..16] + "-" + h[16..20] + "-" + h[20..]
  }

  lemma FourDashes(a: string, b: string, c: string, d: string, e: string, radix: nat)
    ensures Value(a + "-" + b + "-" + c + "-" + d + "-" + e, radix) == Value(a + b + c + d + e, radix)
  {
    hide Value;
    TwoDashes(a + "-" + b + "-" + c, d, e, radix);
    TwoDashes(a, b, c + d + e, radix);
    assert a + "-" + b + "-" + (c + d + e) == a + "-" + b + "-" + c + d + e;
    assert a + b + (c + d + e) == a + b + c + d + e;
  }

  lemma TwoDashes(a: string, b: string, c: string, radix: nat)
    ensures Value(a + "-" + b + "-" + c, radix) == Value(a + b + c, radix)
  {
    hide Value;
    DashSkipped(a + "-" + b, c, radix);
    DashSkipped(a, b + c, radix);
    assert a + "-" + (b + c) == a + "-" + b + c;
    assert a + (b + c) == a + b + c;
  }

  lemma HyphenatedValue(u: Uuid128)
    ensures Value(Hyphenated(u), 16) == u as int
  {
    hide Value, Hex;
    var h := Hex(u as nat, 32);
    SixteenToTheThirtyTwo();
    HexValue(u as nat, 32);
    FourDashes(h[..8], h[8..12], h[12..16], h[16..20], h[20..], 16);
    assert h == h[..8] + h[8..12] + h[12..16] + h[16..20] + h[20..];
  }

  lemma SixteenToTheThirtyTwo()
    ensures Power16(32) == 0x1_0000_0000_0000_0000_0000_0000_0000_0000
  {
    assert Power16(8) == 0x1_0000_0000;
    assert Power16(16) == 0x1_0000_0000_0000_0000;
    assert Power16(24) == 0x1_0000_0000_0000_0000_0000_0000;
  }

  function IdArm(id: SlugId): string {
    match id
    case Uuid(u) => Hyphenated(u)
    case Int(n) => Decimal(UnsignedAbs(n))
  }

  // ---- the slug ----

  function NonEmptyFold(name: Option<string>): Option<string> {
    if name.Some? && Folded(name.value) != "" then Some(Folded(name.value)) else None
  }

  function BaseOf(seoName: Option<string>, fallbackName: Option<string>): string {
    match NonEmptyFold(seoName)
    case Some(k) => k
    case None =>
      match NonEmptyFold(fallbackName)
      case Some(k) => k
      case None => BASE_FALLBACK
  }

  function TrimDashes(s: string): string {
    if s != "" && s[|s| - 1] == '-' then TrimDashes(s[..|s| - 1]) else s
  }

  function Combined(id: SlugId, seoName: Option<string>, fallbackName: Option<string>): string {
    BaseOf(seoName, fallbackName) + "-" + IdArm(id)
  }

  function Capped(s: string): string {
    if |s| <= SLUG_MAX then s else s[..SLUG_MAX]
  }

  function SlugOf(id: SlugId, seoName: Option<string>, fallbackName: Option<string>): string {
    TrimDashes(Capped(Combined(id, seoName, fallbackName)))
  }

  lemma BaseIsKebab(seoName: Option<string>, fallbackName: Option<string>)
    ensures IsKebab(BaseOf(seoName, fallbackName)) && BaseOf(seoName, fallbackName) != ""
  {
    hide Folded;
    if seoName.Some? {
      FoldedIsKebab(seoName.value);
    }
    if fallbackName.Some? {
      FoldedIsKebab(fallbackName.value);
    }
  }

  lemma KebabJoin(a: string, b: string)
    requires IsKebab(a) && IsKebab(b) && a != "" && b != ""
    ensures IsKebab(a + "-" + b)
  {
  }

  lemma WordIsKebab(s: string)
    requires s != "" && forall i :: 0 <= i < |s| ==> IsSlugLetter(s[i])
    ensures IsKebab(s)
  {
  }

  lemma IdArmIsKebab(id: SlugId)
    ensures IsKebab(IdArm(id)) && IdArm(id) != ""
  {
    match id
    case Int(n) => WordIsKebab(Decimal(UnsignedAbs(n)));
    case Uuid(u) =>
      var h := Hex(u as nat, 32);
      var a, b, c, d, e := h[..8], h[8..12], h[12..16], h[16..20], h[20..];
      hide Hex, IsKebab;
      WordIsKebab(a);
      WordIsKebab(b);
      WordIsKebab(c);
      WordIsKebab(d);
      WordIsKebab(e);
      KebabJoin(a, b);
      KebabJoin(a + "-" + b, c);
      KebabJoin(a + "-" + b + "-" + c, d);
      KebabJoin(a + "-" + b + "-" + c + "-" + d, e);
  }

  lemma CombinedIsKebab(id: SlugId, seoName: Option<string>, fallbackName: Option<string>)
    ensures IsKebab(Combined(id, seoName, fallbackName))
  {
    hide IsKebab;
    BaseIsKebab(seoName, fallbackName);
    IdArmIsKebab(id);
    KebabJoin(BaseOf(seoName, fallbackName), IdArm(id));
  }

  /** A cut of kebab loses at most one dash. */
  lemma CutKebab(s: string, n: nat)
    requires IsKebab(s) && 0 < n <= |s|
    ensures TrimDashes(s[..n]) == if s[n - 1] == '-' then s[..n - 1] else s[..n]
    ensures IsKebab(TrimDashes(s[..n])) && TrimDashes(s[..n]) != ""
  {
  }

  /** The slug is 1 to 120 characters of kebab, so folding it again gives it back. */
  lemma SlugShape(id: SlugId, seoName: Option<string>, fallbackName: Option<string>)
    ensures var slug := SlugOf(id, seoName, fallbackName);
      1 <= |slug| <= SLUG_MAX && IsKebab(slug) && Folded(slug) == slug
  {
    hide IsKebab, Folded, TrimDashes;
    var s := Combined(id, seoName, fallbackName);
    CombinedIsKebab(id, seoName, fallbackName);
    var n := |Capped(s)|;
    assert Capped(s) == s[..n];
    CutKebab(s, n);
    FixedIffKebab(SlugOf(id, seoName, fallbackName));
  }

  method SlugFrom(id: SlugId, seoName: Option<string>, fallbackName: Option<string>) returns (slug: string)
    ensures slug == SlugOf(id, seoName, fallbackName)
  {
    hide IsKebab, Folded, BaseOf, IdArm;
    var combined := Combined(id, seoName, fallbackName);
    slug := Capped(combined);
    while slug != "" && slug[|slug| - 1] == '-'
      invariant TrimDashes(slug) == TrimDashes(Capped(combined))
      decreases |slug|
    {
      slug := slug[..|slug| - 1];
    }
    SlugShape(id, seoName, fallbackName);
    if slug == "" {
      slug := BASE_FALLBACK;
    }
  }

  // ---- the id comes back ----

  predicate Fits(id: SlugId, seoName: Option<string>, fallbackName: Option<string>) {
    |Combined(id, seoName, fallbackName)| <= SLUG_MAX
  }

  lemma {:induction false} LastPiece(a: string, b: string)
    requires forall i :: 0 <= i < |b| ==> b[i] != '-'
    ensures AfterLast(a + "-" + b, '-') == b
  {
    var s := a + "-" + b;
    if b != "" {
      var m := |b| - 1;
      LastPiece(a, b[..m]);
      assert s[..|s| - 1] == a + "-" + b[..m];
      assert b == b[..m] + [b[m]];
    }
  }

  /** What a reader of the slug computes from it: the uuid in its last 36 characters, or the number after its last dash. */
  function RecoveredUuid(slug: string): nat {
    if |slug| < 36 then 0 else Value(slug[|slug| - 36..], 16)
  }

  function RecoveredInt(slug: string): nat {
    Value(AfterLast(slug, '-'), 10)
  }

  /** Under the cap the id can be read back from the slug, an integer up to its sign. */
  lemma IdIsRecoverable(id: SlugId, seoName: Option<string>, fallbackName: Option<string>)
    requires Fits(id, seoName, fallbackName)
    ensures var slug := SlugOf(id, seoName, fallbackName);
      match id
      case Uuid(u) => RecoveredUuid(slug) == u as int
      case Int(n) => RecoveredInt(slug) == UnsignedAbs(n)
  {
    hide Value, IsKebab, Hyphenated, Decimal, AfterLast;
    var s, base := Combined(id, seoName, fallbackName), BaseOf(seoName, fallbackName);
    WholeSlug(id, seoName, fallbackName);
    match id
    case Uuid(u) =>
      HyphenatedValue(u);
      assert s[|s| - 36..] == Hyphenated(u);
    case Int(n) =>
      DecimalValue(UnsignedAbs(n));
      LastPiece(base, Decimal(UnsignedAbs(n)));
  }

  lemma WholeSlug(id: SlugId, seoName: Option<string>, fallbackName: Option<string>)
    requires Fits(id, seoName, fallbackName)
    ensures SlugOf(id, seoName, fallbackName) == Combined(id, seoName, fallbackName)
  {
  }

  /** A base that fills the cap leaves no room: every id gives the same slug. */
  lemma LongBaseLosesTheId(a: SlugId, b: SlugId, seoName: Option<string>, fallbackName: Option<string>)
    requires |BaseOf(seoName, fallbackName)| >= SLUG_MAX - 1
    ensures SlugOf(a, seoName, fallbackName) == SlugOf(b, seoName, fallbackName)
  {
    var base := BaseOf(seoName, fallbackName);
    IdArmIsKebab(a);
    IdArmIsKebab(b);
    assert Capped(Combined(a, seoName, fallbackName)) == (base + "-")[..SLUG_MAX];
    assert Capped(Combined(b, seoName, fallbackName)) == (base + "-")[..SLUG_MAX];
  }

  // ---- exactly when the slug identifies the id ----

  /** The places the cap leaves for the id after base and dash. */
  function Room(seoName: Option<string>, fallbackName: Option<string>): int {
    SLUG_MAX - 1 - |BaseOf(seoName, fallbackName)|
  }

  /** Another uuid that differs in its last digit only. */
  lemma TwinUuid(u: Uuid128) returns (v: Uuid128)
    ensures v != u && Hyphenated(v)[..35] == Hyphenated(u)[..35]
  {
    var q, d := u as int / 16, u as int % 16;
    var e := if d == 0 then 1 else 0;
    v := (16 * q + e) as Uuid128;
    assert v as int / 16 == q;
    assert Hex(v as nat, 32)[..31] == Hex(q, 31) && Hex(u as nat, 32)[..31] == Hex(q, 31);
    hide Hex;
    SameHyphens(Hex(u as nat, 32), Hex(v as nat, 32));
  }

  lemma SameHyphens(h: string, k: string)
    requires |h| == 32 && |k| == 32 && h[..31] == k[..31]
    ensures (h[..8] + "-" + h[8..12] + "-" + h[12..16] + "-" + h[16..20] + "-" + h[20..])[..35]
      == (k[..8] + "-" + k[8..12] + "-" + k[12..16] + "-" + k[16..20] + "-" + k[20..])[..35]
  {
    assert forall i :: 0 <= i < 31 ==> h[i] == h[..31][i] && k[i] == k[..31][i];
    assert h[..8] == k[..8] && h[8..12] == k[8..12] && h[12..16] == k[12..16] && h[16..20] == k[16..20];
    assert h[20..][..11] == k[20..][..11];
    var front := h[..8] + "-" + h[8..12] + "-" + h[12..16] + "-" + h[16..20] + "-";
    assert (front + h[20..])[..35] == front + h[20..][..11];
    assert (front + k[20..])[..35] == front + k[20..][..11];
  }

  /** Arms that agree as far as they fit give one slug. */
  lemma CutArms(a: SlugId, b: SlugId, seoName: Option<string>, fallbackName: Option<string>, n: nat)
    requires n >= Room(seoName, fallbackName) && n <= |IdArm(a)| && n <= |IdArm(b)| && IdArm(a)[..n] == IdArm(b)[..n]
    requires |IdArm(a)| >= Room(seoName, fallbackName) && |IdArm(b)| >= Room(seoName, fallbackName)
    ensures SlugOf(a, seoName, fallbackName) == SlugOf(b, seoName, fallbackName)
  {
    var base, room := BaseOf(seoName, fallbackName), Room(seoName, fallbackName);
    hide BaseOf, IdArm, TrimDashes;
    if room < 0 {
      LongCut(base, IdArm(a));
      LongCut(base, IdArm(b));
    } else {
      CutAt(base, IdArm(a), room);
      CutAt(base, IdArm(b), room);
      assert IdArm(a)[..room] == IdArm(a)[..n][..room] && IdArm(b)[..room] == IdArm(b)[..n][..room];
    }
  }

  lemma CutAt(base: string, arm: string, room: nat)
    requires room == SLUG_MAX - 1 - |base| && room <= |arm|
    ensures Capped(base + "-" + arm) == base + "-" + arm[..room]
  {
    var s := base + "-" + arm;
    if |s| > SLUG_MAX {
      assert s[..SLUG_MAX] == base + "-" + arm[..room];
    } else {
      assert arm[..room] == arm;
    }
  }

  lemma LongCut(base: string, arm: string)
    requires |base| >= SLUG_MAX
    ensures Capped(base + "-" + arm) == base[..SLUG_MAX]
  {
    assert (base + "-" + arm)[..SLUG_MAX] == base[..SLUG_MAX];
  }

  /** The slug tells a uuid from every other exactly when the base leaves room for all of it. */
  lemma UuidIsIdentified(u: Uuid128, seoName: Option<string>, fallbackName: Option<string>)
    ensures (forall v: Uuid128 :: SlugOf(Uuid(v), seoName, fallbackName) == SlugOf(Uuid(u), seoName, fallbackName) ==> v == u)
      <==> |BaseOf(seoName, fallbackName)| <= 83
  {
    hide SlugOf, BaseOf, Hyphenated, RecoveredUuid;
    if |BaseOf(seoName, fallbackName)| <= 83 {
      IdIsRecoverable(Uuid(u), seoName, fallbackName);
      forall v: Uuid128 | SlugOf(Uuid(v), seoName, fallbackName) == SlugOf(Uuid(u), seoName, fallbackName) ensures v == u {
        IdIsRecoverable(Uuid(v), seoName, fallbackName);
      }
    } else {
      var v := TwinUuid(u);
      CutArms(Uuid(u), Uuid(v), seoName, fallbackName, 35);
    }
  }

  /** As much of the number as fits. */
  function Cut(digits: string, room: nat): string {
    if |digits| <= room then digits else digits[..room]
  }

  /** Where there is room for a digit, the slug of an integer is base, dash and the digits that fit. */
  lemma IntSlug(n: Int64, seoName: Option<string>, fallbackName: Option<string>)
    requires Room(seoName, fallbackName) >= 1
    ensures SlugOf(Int(n), seoName, fallbackName)
      == BaseOf(seoName, fallbackName) + "-" + Cut(Decimal(UnsignedAbs(n)), Room(seoName, fallbackName))
  {
    var base, digits, room := BaseOf(seoName, fallbackName), Decimal(UnsignedAbs(n)), Room(seoName, fallbackName);
    hide BaseOf, Decimal;
    var s := base + "-" + Cut(digits, room);
    assert Capped(base + "-" + digits) == s by {
      if |digits| >= room {
        CutAt(base, digits, room);
        assert digits[..|digits|] == digits;
      }
    }
    assert s[|s| - 1] == Cut(digits, room)[|Cut(digits, room)| - 1];
  }

  /** Two integers share a slug exactly when they agree up to sign, or on all the digits there is room for. */
  lemma IntsShareASlug(a: Int64, b: Int64, seoName: Option<string>, fallbackName: Option<string>)
    ensures var room, da, db := Room(seoName, fallbackName), Decimal(UnsignedAbs(a)), Decimal(UnsignedAbs(b));
      SlugOf(Int(a), seoName, fallbackName) == SlugOf(Int(b), seoName, fallbackName)
      <==> room <= 0 || UnsignedAbs(a) == UnsignedAbs(b) || (|da| >= room && |db| >= room && da[..room] == db[..room])
  {
    var room, da, db := Room(seoName, fallbackName), Decimal(UnsignedAbs(a)), Decimal(UnsignedAbs(b));
    if room <= 0 {
      LongBaseLosesTheId(Int(a), Int(b), seoName, fallbackName);
    } else {
      IntSlug(a, seoName, fallbackName);
      IntSlug(b, seoName, fallbackName);
      DecimalValue(UnsignedAbs(a));
      DecimalValue(UnsignedAbs(b));
      hide SlugOf, BaseOf, Decimal, Value;
      var head := BaseOf(seoName, fallbackName) + "-";
      assert (head + Cut(da, room))[|head|..] == Cut(da, room) && (head + Cut(db, room))[|head|..] == Cut(db, room);
      CutsAgree(da, db, room);
    }
  }

  lemma CutsAgree(a: string, b: string, room: nat)
    ensures Cut(a, room) == Cut(b, room) <==> a == b || (|a| >= room && |b| >= room && a[..room] == b[..room])
  {
    assert |a| == room ==> a[..room] == a;
    assert |b| == room ==> b[..room] == b;
  }

  lemma {:induction false} LeadingZero(n: nat)
    ensures Decimal(n)[0] == '0' <==> n == 0
  {
    if n >= 10 {
      LeadingZero(n / 10);
    }
  }

  /** A longer number that begins with the digits of n is at least ten times n. */
  lemma {:induction false} LongerIsGreater(n: nat, m: nat)
    requires |Decimal(m)| > |Decimal(n)| && Decimal(m)[..|Decimal(n)|] == Decimal(n)
    ensures m >= 10 * n
  {
    var k, front := |Decimal(n)|, Decimal(m / 10);
    assert Decimal(m) == front + [DigitChar(m % 10)];
    assert front[..k] == Decimal(m)[..k];
    if |front| == k {
      assert front[..k] == front;
      DecimalValue(n);
      DecimalValue(m / 10);
    } else {
      LongerIsGreater(n, m / 10);
    }
  }

  const INT_MAX := 0x8000_0000_0000_0000

  /** No longer integer begins with these digits: zero, or ten times the number is out of range. */
  predicate NoLonger(n: Int64) {
    UnsignedAbs(n) == 0 || 10 * UnsignedAbs(n) > INT_MAX
  }

  /**
   The slug tells an integer, up to its sign, from every other exactly when there is room for one
   digit more than it has; or just room for its digits and no longer integer begins with them.
   */
  lemma IntIsIdentified(a: Int64, seoName: Option<string>, fallbackName: Option<string>)
    ensures var room, digits := Room(seoName, fallbackName), |Decimal(UnsignedAbs(a))|;
      (forall b: Int64 :: SlugOf(Int(b), seoName, fallbackName) == SlugOf(Int(a), seoName, fallbackName) ==> UnsignedAbs(b) == UnsignedAbs(a))
      <==> room >= 1 && (digits < room || (digits == room && NoLonger(a)))
  {
    var room, digits := Room(seoName, fallbackName), |Decimal(UnsignedAbs(a))|;
    hide SlugOf, BaseOf, Decimal;
    if room >= 1 && (digits < room || (digits == room && NoLonger(a))) {
      forall b: Int64 | SlugOf(Int(b), seoName, fallbackName) == SlugOf(Int(a), seoName, fallbackName)
        ensures UnsignedAbs(b) == UnsignedAbs(a)
      {
        IntsShareASlug(b, a, seoName, fallbackName);
        OnlyOne(a, b, room);
      }
    } else {
      var b := TwinInt(a, room);
      IntsShareASlug(b, a, seoName, fallbackName);
    }
  }

  lemma OnlyOne(a: Int64, b: Int64, room: nat)
    requires var da, db := Decimal(UnsignedAbs(a)), Decimal(UnsignedAbs(b));
      UnsignedAbs(b) == UnsignedAbs(a) || (|da| >= room && |db| >= room && da[..room] == db[..room])
    requires room >= 1 && (|Decimal(UnsignedAbs(a))| < room || (|Decimal(UnsignedAbs(a))| == room && NoLonger(a)))
    ensures UnsignedAbs(b) == UnsignedAbs(a)
  {
    var m, n := UnsignedAbs(a), UnsignedAbs(b);
    hide Decimal;
    if |Decimal(m)| == room {
      assert Decimal(m)[..room] == Decimal(m);
      DecimalValue(m);
      DecimalValue(n);
      if m == 0 {
        LeadingZero(m);
        LeadingZero(n);
        assert Decimal(n)[..room][0] == Decimal(n)[0];
      } else if |Decimal(n)| > room {
        LongerIsGreater(m, n);
      } else {
        assert |Decimal(n)| == room ==> Decimal(n)[..room] == Decimal(n);
      }
    }
  }

  /** Another integer with the same leading digits: one digit longer, or with another last digit. */
  lemma TwinInt(a: Int64, room: int) returns (b: Int64)
    requires !(room >= 1 && (|Decimal(UnsignedAbs(a))| < room || (|Decimal(UnsignedAbs(a))| == room && NoLonger(a))))
    ensures UnsignedAbs(b) != UnsignedAbs(a)
    ensures room <= 0
      || (|Decimal(UnsignedAbs(a))| >= room && |Decimal(UnsignedAbs(b))| >= room
          && Decimal(UnsignedAbs(a))[..room] == Decimal(UnsignedAbs(b))[..room])
  {
    var m := UnsignedAbs(a);
    if room <= 0 {
      b := if m == 0 then 1 else 0;
    } else {
      var digits := |Decimal(m)|;
      hide Decimal;
      if digits == room {
        b := (10 * m) as Int64;
        OneDigitMore(m);
      } else {
        OneDigitIsSmall(m);
        var e;
        b, e := NearInt(a);
        OtherLastDigit(m, e, room);
      }
    }
  }

  /** The integer with another last digit. */
  lemma NearInt(a: Int64) returns (b: Int64, e: nat)
    ensures e < 10 && UnsignedAbs(b) != UnsignedAbs(a) && UnsignedAbs(b) == UnsignedAbs(a) / 10 * 10 + e
  {
    var m := UnsignedAbs(a);
    var tens, last := m / 10, m % 10;
    assert m == tens * 10 + last;
    e := if last == 0 then 1 else 0;
    b := (tens * 10 + e) as Int64;
  }

  lemma OneDigitMore(m: nat)
    requires m > 0
    ensures |Decimal(10 * m)| == |Decimal(m)| + 1 && Decimal(10 * m)[..|Decimal(m)|] == Decimal(m)
    ensures Decimal(m)[..|Decimal(m)|] == Decimal(m)
  {
    assert Decimal(10 * m) == Decimal(m) + [DigitChar(0)];
  }

  lemma OneDigitIsSmall(m: nat)
    ensures |Decimal(m)| > 1 ==> m >= 10
  {
  }

  lemma OtherLastDigit(m: nat, e: nat, room: nat)
    requires m >= 10 && e < 10 && room < |Decimal(m)|
    ensures var other := m / 10 * 10 + e;
      |Decimal(other)| == |Decimal(m)| && Decimal(other)[..room] == Decimal(m)[..room]
  {
    var front, other := Decimal(m / 10), m / 10 * 10 + e;
    assert other / 10 == m / 10 && other % 10 == e;
    assert Decimal(m) == front + [DigitChar(m % 10)] && Decimal(other) == front + [DigitChar(e)];
  }

  // ---- what the slug says ----

  predicate IsHexDigit(c: char) {
    '0' <= c <= '9' || 'a' <= c <= 'f'
  }

  lemma {:induction false} HexDigits(n: nat, width: nat)
    ensures forall i :: 0 <= i < width ==> IsHexDigit(Hex(n, width)[i])
  {
    if width > 0 {
      HexDigits(n / 16, width - 1);
    }
  }

  /** A uuid is written in groups of 8, 4, 4, 4 and 12 lower-case hexadecimal digits, and its value is their value. */
  lemma UuidReads(u: Uuid128)
    ensures var s := IdArm(Uuid(u));
      && |s| == 36 && Value(s, 16) == u as int
      && forall i :: 0 <= i < 36 ==> if i in {8, 13, 18, 23} then s[i] == '-' else IsHexDigit(s[i])
  {
    HyphenatedValue(u);
    HexDigits(u as nat, 32);
    hide Hex, Value, IsHexDigit;
    Grouped(Hex(u as nat, 32));
  }

  /** Where the four dashes stand, and which digit stands at each other place. */
  lemma Grouped(h: string)
    requires |h| == 32
    ensures var s := h[..8] + "-" + h[8..12] + "-" + h[12..16] + "-" + h[16..20] + "-" + h[20..];
      && |s| == 36 && s[8] == s[13] == s[18] == s[23] == '-'
      && forall i :: 0 <= i < 36 && i !in {8, 13, 18, 23} ==>
           s[i] == h[if i < 8 then i else if i < 13 then i - 1 else if i < 18 then i - 2 else if i < 23 then i - 3 else i - 4]
  {
  }

  /** An integer is written without its sign, in decimal digits, without leading zeros. */
  lemma IntReads(n: Int64)
    ensures var s := IdArm(Int(n));
      && Value(s, 10) == (if n < 0 then -(n as int) else n as int)
      && s != "" && (forall i :: 0 <= i < |s| ==> '0' <= s[i] <= '9') && (s[0] == '0' ==> s == "0")
  {
    DecimalValue(UnsignedAbs(n));
    DecimalDigits(UnsignedAbs(n));
  }

  lemma {:induction false} DecimalDigits(n: nat)
    ensures var s := Decimal(n);
      && s != "" && (forall i :: 0 <= i < |s| ==> '0' <= s[i] <= '9') && (n == 0 ==> s == "0") && (n > 0 ==> s[0] != '0')
  {
    if n >= 10 {
      DecimalDigits(n / 10);
    }
  }

  /**
   The SEO name comes first: when it folds to something the slug is that fold, a dash and the id, cut at
   120 characters with a dash at the cut dropped. When it folds to nothing the fallback name takes its
   place, and when both do the word "page".
   */
  lemma SlugReads(id: SlugId, seoName: Option<string>, fallbackName: Option<string>)
    ensures var named := seoName.Some? && Folded(seoName.value) != "";
      var backed := fallbackName.Some? && Folded(fallbackName.value) != "";
      var base := if named then Folded(seoName.value) else if backed then Folded(fallbackName.value) else "page";
      var whole, slug := base + "-" + IdArm(id), SlugOf(id, seoName, fallbackName);
      && (|whole| <= 120 ==> slug == whole)
      && (|whole| > 120 ==> slug == if whole[119] == '-' then whole[..119] else whole[..120])
  {
    var whole := Combined(id, seoName, fallbackName);
    hide IdArm, Folded, IsKebab;
    CombinedIsKebab(id, seoName, fallbackName);
    if |whole| <= 120 {
      CutKebab(whole, |whole|);
      EndsInLetter(id, seoName, fallbackName);
      assert whole[..|whole|] == whole;
    } else {
      CutKebab(whole, 120);
    }
  }

  lemma EndsInLetter(id: SlugId, seoName: Option<string>, fallbackName: Option<string>)
    ensures var whole := Combined(id, seoName, fallbackName); whole != "" && whole[|whole| - 1] != '-'
  {
    CombinedIsKebab(id, seoName, fallbackName);
    hide BaseOf, IdArm;
  }

  /** With an SEO name that says something the fallback name is never looked at. */
  lemma SeoNameDecides(id: SlugId, seoName: string, f: Option<string>, g: Option<string>)
    requires Folded(seoName) != ""
    ensures SlugOf(id, Some(seoName), f) == SlugOf(id, Some(seoName), g)
  {
    SlugReads(id, Some(seoName), f);
    SlugReads(id, Some(seoName), g);
  }
}
