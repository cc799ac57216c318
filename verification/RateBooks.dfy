/**
 The in-memory rate books: one fixed one-hour window per key, bumped under a lock.
 */
module RateBooks {
  import opened Common
  import opened Text
  import Slug

  const HOUR := 3600

  datatype Window = Window(hour: nat, count: nat)

  type Book = map<string, Window>

  /** One bump of one key. The clock is read twice: for the hour, and for the retry of a refusal. */
  datatype Attempt = Attempt(key: string, limit: nat, now: nat, later: nat)

  function Hour(now: nat): nat {
    now / HOUR
  }

  /** The key's window, started over when its hour is not the current one. */
  function Entry(book: Book, a: Attempt): Window {
    if a.key in book && book[a.key].hour == Hour(a.now) then book[a.key] else Window(Hour(a.now), 0)
  }

  function Max(a: int, b: int): int {
    if a < b then b else a
  }

  function Min(a: nat, b: nat): nat {
    if a < b then a else b
  }

  function Bumped(book: Book, a: Attempt): (Book, Result<(), int>) {
    var entry := Entry(book, a);
    if entry.count >= a.limit
    then (book[a.key := entry], Err(Max(1, (entry.hour + 1) * HOUR - a.later)))
    else (book[a.key := Window(entry.hour, entry.count + 1)], Ok(()))
  }

  datatype IntakeError = PepperNotConfigured | RateLimited(retryAfterSeconds: int)

  datatype Policy = Policy(identityLimit: nat, ipLimit: nat)

  function HeartbeatKey(site: Slug.Uuid128, ip: string): string {
    "heartbeat:" + Slug.Hyphenated(site) + ":ip:" + ip
  }

  function IdentityKey(declaration: string, digest: string): string {
    declaration + ":id:" + digest
  }

  function IpKey(declaration: string, ip: string): string {
    declaration + ":ip:" + ip
  }

  class Engine {
    var books: Book
    const pepper: string

    method Bump(a: Attempt) returns (r: Result<(), int>)
      modifies this`books
      ensures (books, r) == Bumped(old(books), a)
    {
      var hour := a.now / HOUR;
      var entry := if a.key in books then books[a.key] else Window(hour, 0);
      if entry.hour != hour {
        entry := Window(hour, 0);
      }
      books := books[a.key := entry];
      if entry.count >= a.limit {
        return Err(Max((entry.hour + 1) * HOUR - a.later, 1));
      }
      books := books[a.key := entry.(count := entry.count + 1)];
      assert books == old(books)[a.key := entry.(count := entry.count + 1)];
      return Ok(());
    }

    method HeartbeatRateCheck(site: Slug.Uuid128, ip: string, limit: nat, now: nat, later: nat) returns (r: Result<(), int>)
      modifies this`books
      ensures (books, r) == Bumped(old(books), Attempt(HeartbeatKey(site, ip), limit, now, later))
    {
      r := Bump(Attempt(HeartbeatKey(site, ip), limit, now, later));
    }

    /** The identity window only for a session, keyed by its digest; the address window always, unless the first refused. */
    method ArmRateBuckets(declaration: string, policy: Policy, digest: Option<string>, ip: string,
        t0: nat, t1: nat, t2: nat, t3: nat) returns (r: Result<(), IntakeError>)
      modifies this`books
      ensures digest.Some? && pepper == "" ==> r == Err(PepperNotConfigured) && books == old(books)
      ensures digest.Some? && pepper != "" ==>
        var (first, answer) := Bumped(old(books), Attempt(IdentityKey(declaration, digest.value), policy.identityLimit, t0, t1));
        var (second, last) := Bumped(first, Attempt(IpKey(declaration, ip), policy.ipLimit, t2, t3));
        if answer.Err? then books == first && r == Err(RateLimited(answer.error))
        else books == second && r == (if last.Ok? then Ok(()) else Err(RateLimited(last.error)))
      ensures digest.None? ==>
        var (only, last) := Bumped(old(books), Attempt(IpKey(declaration, ip), policy.ipLimit, t2, t3));
        books == only && r == (if last.Ok? then Ok(()) else Err(RateLimited(last.error)))
    {
      if digest.Some? {
        if pepper == "" {
          return Err(PepperNotConfigured);
        }
        var armed := Bump(Attempt(IdentityKey(declaration, digest.value), policy.identityLimit, t0, t1));
        if armed.Err? {
          return Err(RateLimited(armed.error));
        }
      }
      var armed := Bump(Attempt(IpKey(declaration, ip), policy.ipLimit, t2, t3));
      if armed.Err? {
        return Err(RateLimited(armed.error));
      }
      return Ok(());
    }
  }

  // ---- whole runs ----

  /** The books after the first n bumps, from empty books. */
  function BookAfter(run: seq<Attempt>, n: nat): Book
    requires n <= |run|
  {
    if n == 0 then map[] else Bumped(BookAfter(run, n - 1), run[n - 1]).0
  }

  function Answer(run: seq<Attempt>, i: nat): Result<(), int>
    requires i < |run|
  {
    Bumped(BookAfter(run, i), run[i]).1
  }

  /** The clock never runs backwards. */
  ghost predicate Monotone(run: seq<Attempt>) {
    && (forall i :: 0 <= i < |run| ==> run[i].now <= run[i].later)
    && (forall i, j :: 0 <= i < j < |run| ==> run[i].later <= run[j].now)
  }

  ghost predicate FixedLimit(run: seq<Attempt>, key: string, limit: nat) {
    forall i :: 0 <= i < |run| && run[i].key == key ==> run[i].limit == limit
  }

  /** How many of the first n bumps are of the key in the hour. */
  function Attempts(run: seq<Attempt>, key: string, hour: nat, n: nat): nat
    requires n <= |run|
  {
    if n == 0 then 0
    else
      var here := run[n - 1].key == key && Hour(run[n - 1].now) == hour;
      Attempts(run, key, hour, n - 1) + if here then 1 else 0
  }

  /** How many of them were let through. */
  function Admitted(run: seq<Attempt>, key: string, hour: nat, n: nat): nat
    requires n <= |run|
  {
    if n == 0 then 0
    else
      var passed := run[n - 1].key == key && Hour(run[n - 1].now) == hour && Answer(run, n - 1).Ok?;
      Admitted(run, key, hour, n - 1) + if passed then 1 else 0
  }

  /** How many were let through from lo up to, not including, hi. */
  function AdmittedBetween(run: seq<Attempt>, key: string, lo: nat, hi: nat, n: nat): nat
    requires n <= |run|
  {
    if n == 0 then 0
    else
      var passed := run[n - 1].key == key && lo <= run[n - 1].now < hi && Answer(run, n - 1).Ok?;
      AdmittedBetween(run, key, lo, hi, n - 1) + if passed then 1 else 0
  }

  /** What the window of the key knows about an hour. */
  ghost predicate Tallies(run: seq<Attempt>, key: string, limit: nat, hour: nat, n: nat)
    requires n <= |run|
  {
    var book, attempts := BookAfter(run, n), Attempts(run, key, hour, n);
    && Admitted(run, key, hour, n) == Min(limit, attempts)
    && (key !in book ==> attempts == 0)
    && (key in book && book[key].hour < hour ==> attempts == 0)
    && (key in book && book[key].hour == hour ==> book[key].count == Min(limit, attempts))
    && (key in book ==> n > 0 && book[key].hour <= Hour(run[n - 1].now))
  }

  lemma {:induction false} HourTallies(run: seq<Attempt>, key: string, limit: nat, hour: nat, n: nat)
    requires Monotone(run) && FixedLimit(run, key, limit) && n <= |run|
    ensures Tallies(run, key, limit, hour, n)
  {
    if n > 0 {
      HourTallies(run, key, limit, hour, n - 1);
      if n > 1 {
        HoursGrow(run[n - 2].now, run[n - 1].now);
      }
      TalliesNext(run, key, limit, hour, n);
    }
  }

  lemma HoursGrow(a: nat, b: nat)
    requires a <= b
    ensures Hour(a) <= Hour(b)
  {
  }

  lemma TalliesNext(run: seq<Attempt>, key: string, limit: nat, hour: nat, n: nat)
    requires 0 < n <= |run| && FixedLimit(run, key, limit) && Tallies(run, key, limit, hour, n - 1)
    requires n > 1 ==> Hour(run[n - 2].now) <= Hour(run[n - 1].now)
    ensures Tallies(run, key, limit, hour, n)
  {
  }

  /** In every hour a key lets through exactly its limit, or every attempt when there are fewer. */
  lemma AdmittedPerHour(run: seq<Attempt>, key: string, limit: nat, hour: nat)
    requires Monotone(run) && FixedLimit(run, key, limit)
    ensures Admitted(run, key, hour, |run|) == Min(limit, Attempts(run, key, hour, |run|))
  {
    HourTallies(run, key, limit, hour, |run|);
  }

  /** Any 3600 seconds touch two clock hours at most. */
  lemma {:induction false} BetweenTwoHours(run: seq<Attempt>, key: string, lo: nat, n: nat)
    requires n <= |run|
    ensures AdmittedBetween(run, key, lo, lo + HOUR, n)
      <= Admitted(run, key, Hour(lo), n) + Admitted(run, key, Hour(lo) + 1, n)
  {
    if n > 0 {
      BetweenTwoHours(run, key, lo, n - 1);
      var now := run[n - 1].now;
      assert lo <= now < lo + HOUR ==> Hour(now) in {Hour(lo), Hour(lo) + 1};
    }
  }

  /** No interval of 3600 seconds sees more than twice the limit let through. */
  lemma AtMostTwiceTheLimit(run: seq<Attempt>, key: string, limit: nat, lo: nat)
    requires Monotone(run) && FixedLimit(run, key, limit)
    ensures AdmittedBetween(run, key, lo, lo + HOUR, |run|) <= 2 * limit
  {
    BetweenTwoHours(run, key, lo, |run|);
    AdmittedPerHour(run, key, limit, Hour(lo));
    AdmittedPerHour(run, key, limit, Hour(lo) + 1);
  }

  /** The limit spent in the last second of an hour and again in the first second of the next. */
  function TwoBursts(key: string, limit: nat): (run: seq<Attempt>)
    ensures |run| == 2 * limit
    ensures forall i :: 0 <= i < |run| ==> run[i] == if i < limit then Attempt(key, limit, 3599, 3599) else Attempt(key, limit, 3600, 3600)
  {
    seq(2 * limit, i => if i < limit then Attempt(key, limit, 3599, 3599) else Attempt(key, limit, 3600, 3600))
  }

  lemma {:induction false} BurstsAreCounted(key: string, limit: nat, n: nat)
    requires n <= 2 * limit
    ensures var run := TwoBursts(key, limit);
      && Attempts(run, key, 0, n) == Min(n, limit) && Attempts(run, key, 1, n) == n - Min(n, limit)
      && AdmittedBetween(run, key, 3599, 3599 + HOUR, n) == Admitted(run, key, 0, n) + Admitted(run, key, 1, n)
  {
    if n > 0 {
      BurstsAreCounted(key, limit, n - 1);
    }
  }

  /** For every limit the bound is met: a burst at the end of one hour and another at the start of the next. */
  lemma TwiceTheLimitHappens(key: string, limit: nat)
    ensures var run := TwoBursts(key, limit);
      && Monotone(run) && FixedLimit(run, key, limit)
      && AdmittedBetween(run, key, 3599, 3599 + HOUR, |run|) == 2 * limit
  {
    var run := TwoBursts(key, limit);
    BurstsAreCounted(key, limit, |run|);
    AdmittedPerHour(run, key, limit, 0);
    AdmittedPerHour(run, key, limit, 1);
  }

  /** A refusal asks for 1 to 3600 seconds, and whoever waits that long is in a later hour. */
  lemma RetryReachesAFreshWindow(book: Book, a: Attempt, waited: nat)
    requires a.now <= a.later && Bumped(book, a).1.Err?
    ensures 1 <= Bumped(book, a).1.error <= HOUR
    ensures waited >= a.later + Bumped(book, a).1.error ==> Hour(waited) > Hour(a.now)
  {
  }

  /** In a window nobody has used yet, the first attempt passes. */
  lemma FirstOfTheHourPasses(run: seq<Attempt>, i: nat)
    requires Monotone(run) && i < |run| && run[i].limit > 0 && FixedLimit(run, run[i].key, run[i].limit)
    requires Attempts(run, run[i].key, Hour(run[i].now), i) == 0
    ensures Answer(run, i).Ok?
  {
    HourTallies(run, run[i].key, run[i].limit, Hour(run[i].now), i);
  }

  // ---- the keys ----

  /** An intake arm's key: the verb's name, the arm's mark, the caller. */
  function Key(name: string, mark: string, caller: string): string {
    name + mark + caller
  }

  const MARKS := {":id:", ":ip:"}

  /** What the identity arm is keyed by: 32 bytes in lower-case hexadecimal. */
  predicate IsDigest(s: string) {
    |s| == 64 && forall i :: 0 <= i < |s| ==> '0' <= s[i] <= '9' || 'a' <= s[i] <= 'f'
  }

  /** The callers of an arm: digests for the identity arm, any text for the address arm. */
  predicate Calls(mark: string, caller: string) {
    mark == ":id:" ==> IsDigest(caller)
  }

  /** Some callers of the two arms share a bucket. */
  ghost predicate Share(d: string, m: string, e: string, n: string) {
    exists x, y :: Calls(m, x) && Calls(n, y) && Key(d, m, x) == Key(e, n, y)
  }

  /** The name `e` goes on where the arm `m` of `d` writes its mark: it ends in the mark's name or runs past the mark. */
  predicate Extends(d: string, e: string, m: string) {
    m in MARKS && (e == d + m[..3] || StartsWith(e, d + m))
  }

  /** What a longer name and its mark put where a mark after `d` would leave the caller. */
  function Beyond(d: string, e: string, n: string): string {
    if |d| + 4 <= |e + n| then (e + n)[|d| + 4..] else ""
  }

  lemma MeetsLonger(d: string, m: string, x: string, e: string, n: string, y: string)
    requires m in MARKS && n in MARKS && |d| < |e|
    ensures Key(d, m, x) == Key(e, n, y) <==> Extends(d, e, m) && x == Beyond(d, e, n) + y
  {
    if Key(d, m, x) == Key(e, n, y) {
      LongerExtends(d, m, x, e, n, y);
    }
    if Extends(d, e, m) {
      ExtensionSplits(d, m, e, n);
      assert Key(d, m, x) == d + m + x && Key(e, n, y) == d + m + (Beyond(d, e, n) + y);
      assert Key(d, m, x)[|d + m|..] == x && Key(e, n, y)[|d + m|..] == Beyond(d, e, n) + y;
    }
  }

  lemma LongerExtends(d: string, m: string, x: string, e: string, n: string, y: string)
    requires m in MARKS && n in MARKS && |d| < |e| && Key(d, m, x) == Key(e, n, y)
    ensures Extends(d, e, m)
  {
    var s, k := Key(d, m, x), |e| - |d|;
    assert s[..|d|] == d && s[|d|..|d| + 4] == m && s[..|e|] == e && s[|e|..|e| + 4] == n;
    assert e[..|d|] == d;
    if k < 4 {
      assert m[k] == s[|e|] == n[0];
      assert k == 3 && e == s[..|d| + 3] == d + m[..3];
    } else {
      assert e[..|d| + 4] == s[..|d| + 4] == d + m;
    }
  }

  lemma ExtensionSplits(d: string, m: string, e: string, n: string)
    requires n in MARKS && Extends(d, e, m)
    ensures e + n == d + m + Beyond(d, e, n) && Beyond(d, e, n) != "" && Beyond(d, e, n)[|Beyond(d, e, n)| - 1] == ':'
  {
    var s := e + n;
    if e == d + m[..3] {
      assert m == m[..3] + ":" && n == ":" + n[1..];
    } else {
      assert e == d + m + e[|d + m|..];
    }
    assert s[..|d| + 4] == d + m;
  }

  /** When two keys are one: one caller of one arm, or the longer name with its mark is part of what the other's caller wrote. */
  lemma KeysMeetIff(d: string, m: string, x: string, e: string, n: string, y: string)
    requires m in MARKS && n in MARKS
    ensures Key(d, m, x) == Key(e, n, y)
      <==> (d == e && m == n && x == y) || (Extends(d, e, m) && x == Beyond(d, e, n) + y) || (Extends(e, d, n) && y == Beyond(e, d, m) + x)
  {
    if |d| < |e| {
      MeetsLonger(d, m, x, e, n, y);
    } else if |e| < |d| {
      MeetsLonger(e, n, y, d, m, x);
    } else {
      var s := Key(d, m, x);
      assert s[..|d|] == d && s[|d|..|d| + 4] == m && s[|d| + 4..] == x;
      var r := Key(e, n, y);
      assert r[..|d|] == e && r[|d|..|d| + 4] == n && r[|d| + 4..] == y;
    }
  }

  /** No digest continues a name: what a longer name puts there has a colon in it. */
  lemma DigestIsNotBeyond(d: string, m: string, e: string, n: string, y: string)
    requires n in MARKS && Extends(d, e, m)
    ensures !IsDigest(Beyond(d, e, n) + y)
  {
    ExtensionSplits(d, m, e, n);
    var past := Beyond(d, e, n);
    assert (past + y)[|past| - 1] == ':';
  }

  /** A caller any arm may have. */
  const ZEROES := seq(64, _ => '0')

  /**
   Two arms have a bucket in common exactly when they are one arm of one name, or one of them is an
   address arm and the other's name goes on where its mark stands. An identity arm's name can be
   continued without harm: no digest reads like the rest of a longer key.
   */
  lemma ArmsShareIff(d: string, m: string, e: string, n: string)
    requires m in MARKS && n in MARKS
    ensures Share(d, m, e, n)
      <==> (d == e && m == n) || (m == ":ip:" && Extends(d, e, m)) || (n == ":ip:" && Extends(e, d, n))
  {
    hide Extends, Key, Beyond;
    forall x, y | Calls(m, x) && Calls(n, y) && Key(d, m, x) == Key(e, n, y)
      ensures (d == e && m == n) || (m == ":ip:" && Extends(d, e, m)) || (n == ":ip:" && Extends(e, d, n))
    {
      KeysAreInjective(d, m, x, e, n, y);
    }
    KeysMeetIff(d, m, ZEROES, e, n, ZEROES);
    KeysMeetIff(d, m, Beyond(d, e, n) + ZEROES, e, n, ZEROES);
    KeysMeetIff(d, m, ZEROES, e, n, Beyond(e, d, m) + ZEROES);
  }

  /** Within one arm of one verb every caller has a bucket of its own, whatever the verb is called. */
  lemma CallersAreApart(d: string, m: string, x: string, y: string)
    ensures Key(d, m, x) == Key(d, m, y) <==> x == y
  {
    assert Key(d, m, x)[|d + m|..] == x && Key(d, m, y)[|d + m|..] == y;
  }

  predicate ColonFree(s: string) {
    forall i :: 0 <= i < |s| ==> s[i] != ':'
  }

  /** A name goes on after a colon, and ends with the mark's name or has another colon after it. */
  lemma ExtendsAtColon(d: string, e: string, m: string)
    ensures Extends(d, e, m) ==> |d| + 3 <= |e| && e[|d|] == ':' && (|e| == |d| + 3 || e[|d| + 3] == ':')
  {
    assert m in MARKS ==> (d + m[..3])[|d|] == ':' && (d + m)[|d|] == ':' && (d + m)[|d| + 3] == ':';
    assert StartsWith(e, d + m) ==> forall i :: 0 <= i < |d + m| ==> e[..|d + m|][i] == e[i];
  }

  /** Distinct callers have distinct buckets, unless one verb's name goes on where the mark of the other's address arm stands. */
  lemma KeysAreInjective(d: string, m: string, x: string, e: string, n: string, y: string)
    requires m in MARKS && n in MARKS && Calls(m, x) && Calls(n, y)
    ensures (m == ":ip:" && Extends(d, e, m)) || (n == ":ip:" && Extends(e, d, n))
      || (Key(d, m, x) == Key(e, n, y) <==> d == e && m == n && x == y)
  {
    hide Extends, Key, Beyond, IsDigest;
    KeysMeetIff(d, m, x, e, n, y);
    if Extends(d, e, m) {
      DigestIsNotBeyond(d, m, e, n, y);
    }
    if Extends(e, d, n) {
      DigestIsNotBeyond(e, n, d, m, x);
    }
  }

  // ---- intake keys beside heartbeat keys ----

  function HeartbeatName(site: Slug.Uuid128): string {
    "heartbeat:" + Slug.Hyphenated(site)
  }

  lemma ArmKeys(site: Slug.Uuid128, d: string, x: string)
    ensures HeartbeatKey(site, x) == Key(HeartbeatName(site), ":ip:", x)
    ensures IpKey(d, x) == Key(d, ":ip:", x) && IdentityKey(d, x) == Key(d, ":id:", x)
  {
  }

  lemma HyphenatedIsColonFree(u: Slug.Uuid128)
    ensures ColonFree(Slug.Hyphenated(u))
  {
  }

  /** The one colon of a heartbeat's name has 36 characters after it and none of them is another, so it goes on after no mark. */
  lemma HeartbeatExtendsNothing(site: Slug.Uuid128, d: string, m: string)
    ensures !Extends(d, HeartbeatName(site), m)
  {
    HyphenatedIsColonFree(site);
    var h, u := HeartbeatName(site), Slug.Hyphenated(site);
    ExtendsAtColon(d, h, m);
    hide Slug.Hyphenated, Extends;
    assert forall i :: 10 <= i < |h| ==> h[i] == u[i - 10];
    assert forall i :: 0 <= i < 10 ==> h[i] == "heartbeat:"[i];
  }

  /**
   Which verb names meet a heartbeat's bucket: for the address arm the heartbeat's own name, and for
   either arm a name that continues it with ":ip".
   */
  lemma HeartbeatSharesIff(site: Slug.Uuid128, d: string)
    ensures (exists ip, x :: IpKey(d, x) == HeartbeatKey(site, ip)) <==> d == HeartbeatName(site) || Extends(HeartbeatName(site), d, ":ip:")
    ensures (exists ip, x :: IsDigest(x) && IdentityKey(d, x) == HeartbeatKey(site, ip)) <==> Extends(HeartbeatName(site), d, ":ip:")
  {
    var h := HeartbeatName(site);
    ArmsShareIff(d, ":ip:", h, ":ip:");
    ArmsShareIff(d, ":id:", h, ":ip:");
    HeartbeatExtendsNothing(site, d, ":ip:");
    AsShares(site, d);
  }

  lemma AsShares(site: Slug.Uuid128, d: string)
    ensures (exists ip, x :: IpKey(d, x) == HeartbeatKey(site, ip)) <==> Share(d, ":ip:", HeartbeatName(site), ":ip:")
    ensures (exists ip, x :: IsDigest(x) && IdentityKey(d, x) == HeartbeatKey(site, ip)) <==> Share(d, ":id:", HeartbeatName(site), ":ip:")
  {
    forall ip, x ensures HeartbeatKey(site, ip) == Key(HeartbeatName(site), ":ip:", ip)
      && IpKey(d, x) == Key(d, ":ip:", x) && IdentityKey(d, x) == Key(d, ":id:", x)
    {
      ArmKeys(site, d, ip);
      ArmKeys(site, d, x);
    }
    hide HeartbeatKey, IpKey, IdentityKey, Key, HeartbeatName, IsDigest;
  }

  /** For colon-free verb names heartbeat, identity and address buckets never coincide. */
  lemma KeysAreDisjoint(site: Slug.Uuid128, ip: string, d: string, digest: string, e: string, caller: string)
    requires ColonFree(d) && ColonFree(e)
    ensures HeartbeatKey(site, ip) != IpKey(e, caller) && HeartbeatKey(site, ip) != IdentityKey(d, digest)
    ensures IdentityKey(d, digest) != IpKey(e, caller)
  {
    var h := HeartbeatName(site);
    assert h[9] == ':';
    ExtendsAtColon(h, e, ":ip:");
    ExtendsAtColon(h, d, ":ip:");
    ExtendsAtColon(d, e, ":id:");
    ExtendsAtColon(e, d, ":ip:");
    HeartbeatExtendsNothing(site, e, ":ip:");
    HeartbeatExtendsNothing(site, d, ":id:");
    ArmKeys(site, d, digest);
    ArmKeys(site, e, caller);
    ArmKeys(site, d, ip);
    hide HeartbeatKey, IpKey, IdentityKey, Key, Extends, Beyond;
    KeysMeetIff(d, ":id:", digest, e, ":ip:", caller);
    KeysMeetIff(h, ":ip:", ip, e, ":ip:", caller);
    KeysMeetIff(h, ":ip:", ip, d, ":id:", digest);
  }

  /** A verb of the heartbeat's name shares all its buckets. */
  lemma ColonSharesABucket(site: Slug.Uuid128, ip: string)
    ensures IpKey(HeartbeatName(site), ip) == HeartbeatKey(site, ip)
  {
  }

  /** Whoever waits as long as a refusal says meets the first second of the next hour, unless that had come before the refusal was worded. */
  lemma RetryIsTheNextHour(book: Book, a: Attempt)
    requires Bumped(book, a).1.Err?
    ensures var retry, next := Bumped(book, a).1.error, (a.now / 3600 + 1) * 3600;
      if a.later < next then a.later + retry == next else retry == 1
  {
  }

  /** A bump is let through exactly while fewer than the limit were in this hour, is then counted, and touches no other key. */
  lemma BumpCounts(book: Book, a: Attempt, key: string)
    ensures var (after, r) := Bumped(book, a);
      var used := if a.key in book && book[a.key].hour == a.now / 3600 then book[a.key].count else 0;
      && (r.Ok? <==> used < a.limit)
      && a.key in after && after[a.key] == Window(a.now / 3600, if r.Ok? then used + 1 else used)
      && (key != a.key ==> (key in after <==> key in book) && (key in book ==> after[key] == book[key]))
  {
  }
}
