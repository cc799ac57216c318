/**
 The visitor store over whole serial runs of heartbeats, merges and sweep batches.
 */
module VisitorRuns {
  import opened Common
  import opened Visitors
  import VisitorGc

  datatype Event =
    | Beating(b: Beat)
    | Merging(m: MergeCall, mergeLocks: set<Uuid>, identified: Option<Uuid>)
    | Sweeping(cutoff: int, batch: nat, sweepLocks: set<Uuid>, gone: set<Uuid>)

  /** A run, latest event last. */
  datatype Run = Begin | Then(before: Run, event: Event)

  function Next(s: Store, e: Event): Store {
    match e
    case Beating(b) => Heartbeat(s, b).0
    case Merging(m, locks, identified) => Merge(s, m, locks, identified).0
    case Sweeping(_, _, _, gone) => Deleted(s, gone)
  }

  /** The event is one the store allows: new uuids are new, and the queries answer what they may. */
  ghost predicate Legal(s: Store, e: Event) {
    match e
    case Beating(b) => FreshBeat(s, b)
    case Merging(m, locks, identified) => Selected(s, m, locks, identified)
    case Sweeping(cutoff, batch, locks, gone) => VisitorGc.IsBatch(s, cutoff, batch, locks, gone)
  }

  function After(s: Store, run: Run): Store {
    match run
    case Begin => s
    case Then(before, e) => Next(After(s, before), e)
  }

  ghost predicate LegalRun(s: Store, run: Run) {
    match run
    case Begin => true
    case Then(before, e) => LegalRun(s, before) && Legal(After(s, before), e)
  }

  lemma NextKeepsValid(s: Store, e: Event)
    requires Valid(s) && Legal(s, e)
    ensures Valid(Next(s, e))
  {
    match e
    case Beating(b) => BeatKeepsValid(s, b);
    case Merging(m, locks, identified) => MergeKeepsValid(s, m, locks, identified);
    case Sweeping(_, _, _, gone) => VisitorGc.DeletedKeepsFresh(s, gone);
  }

  lemma {:induction false} RunKeepsValid(s: Store, run: Run)
    requires Valid(s) && LegalRun(s, run)
    ensures Valid(After(s, run))
  {
    hide Valid, Legal, Next;
    match run
    case Begin =>
    case Then(before, e) =>
      RunKeepsValid(s, before);
      NextKeepsValid(After(s, before), e);
  }

  /** The visitor's row is never deleted in the run. */
  ghost predicate Stays(s: Store, run: Run, v: Uuid) {
    match run
    case Begin => v in s.visitors
    case Then(before, _) => Stays(s, before, v) && v in After(s, run).visitors
  }

  // ---- tokens ----

  /** The same visitor, up to its principal and its counters. */
  predicate SameIdentity(a: Visitor, b: Visitor) {
    a.token == b.token && a.digest == b.digest && a.website == b.website
  }

  lemma NextKeepsIdentity(s: Store, e: Event, v: Uuid)
    requires Legal(s, e) && v in s.visitors && v in Next(s, e).visitors
    ensures SameIdentity(s.visitors[v], Next(s, e).visitors[v])
  {
  }

  /** No surviving row's access token ever changes. */
  lemma {:induction false} TokensNeverChange(s: Store, run: Run, v: Uuid)
    requires LegalRun(s, run) && Stays(s, run, v)
    ensures v in s.visitors && v in After(s, run).visitors && SameIdentity(s.visitors[v], After(s, run).visitors[v])
  {
    hide Legal, Next;
    match run
    case Begin =>
    case Then(before, e) =>
      TokensNeverChange(s, before, v);
      NextKeepsIdentity(After(s, before), e, v);
  }

  // ---- visits ----

  /** The event is a heartbeat of the visitor. */
  predicate IsBeatOf(e: Event, row: Visitor) {
    e.Beating? && e.b.digest == row.digest && e.b.website == row.website
  }

  /** The event claims the visitor's row for a principal. */
  predicate IsClaimOf(e: Event, v: Uuid) {
    e.Merging? && e.identified.None? && e.m.anonymous == v && v !in e.mergeLocks
  }

  /** When the visitor was last connected, read off the run. */
  function Seen(s: Store, run: Run, v: Uuid): int
    requires v in s.visitors
  {
    match run
    case Begin => s.visitors[v].lastConnection
    case Then(before, e) =>
      if IsBeatOf(e, s.visitors[v]) then e.b.now
      else if IsClaimOf(e, v) then e.m.now
      else Seen(s, before, v)
  }

  /** The heartbeats of the visitor that came more than eight hours after it was last connected. */
  function Returns(s: Store, run: Run, v: Uuid): nat
    requires v in s.visitors
  {
    match run
    case Begin => 0
    case Then(before, e) =>
      Returns(s, before, v) + if IsBeatOf(e, s.visitors[v]) && Seen(s, before, v) < e.b.now - VISIT_WINDOW then 1 else 0
  }

  lemma NextCounts(s: Store, e: Event, v: Uuid)
    requires Valid(s) && Legal(s, e) && v in s.visitors && v in Next(s, e).visitors
    ensures Next(s, e).visitors[v]
      == if IsBeatOf(e, s.visitors[v]) then Returned(s.visitors[v], e.b.now)
         else if IsClaimOf(e, v) then Claimed(s.visitors[v], e.m.principal, e.m.now)
         else s.visitors[v]
  {
    if e.Beating? {
      HolderIs(s, e.b.digest, e.b.website);
    }
  }

  /** Over any run the visit counter grows by exactly the number of such heartbeats. */
  lemma {:induction false} VisitsAreReturns(s: Store, run: Run, v: Uuid)
    requires Valid(s) && LegalRun(s, run) && Stays(s, run, v)
    ensures v in s.visitors && v in After(s, run).visitors
    ensures After(s, run).visitors[v].visitCount == s.visitors[v].visitCount + Returns(s, run, v)
    ensures After(s, run).visitors[v].lastConnection == Seen(s, run, v)
  {
    hide Legal, Next, Valid;
    match run
    case Begin =>
    case Then(before, e) =>
      VisitsAreReturns(s, before, v);
      TokensNeverChange(s, before, v);
      RunKeepsValid(s, before);
      NextCounts(After(s, before), e, v);
  }

  // ---- tracks ----

  /** Two tracks of the same visitor and url are at least thirty minutes apart. */
  predicate Apart(a: Track, b: Track) {
    a.url == b.url ==> a.at + TRACK_DEDUP <= b.at || b.at + TRACK_DEDUP <= a.at
  }

  ghost predicate Spaced(tracks: map<Uuid, Track>, v: Uuid) {
    forall k, l :: k in tracks && l in tracks && k != l && tracks[k].visitor == v && tracks[l].visitor == v ==> Apart(tracks[k], tracks[l])
  }

  ghost predicate NoLater(tracks: map<Uuid, Track>, now: int) {
    forall k :: k in tracks ==> tracks[k].at <= now
  }

  /** The time of the latest heartbeat. */
  function Clock(start: int, run: Run): int {
    match run
    case Begin => start
    case Then(before, e) => if e.Beating? then e.b.now else Clock(start, before)
  }

  ghost predicate Monotone(start: int, run: Run) {
    match run
    case Begin => true
    case Then(before, e) => Monotone(start, before) && (e.Beating? ==> Clock(start, before) <= e.b.now)
  }

  /** No merge of the run moves another row's tracks onto the visitor. */
  predicate NothingMovedOnto(run: Run, v: Uuid) {
    match run
    case Begin => true
    case Then(before, e) => NothingMovedOnto(before, v) && (e.Merging? ==> e.identified != Some(v))
  }

  lemma NextKeepsSpaced(s: Store, e: Event, v: Uuid, clock: int)
    requires Legal(s, e) && Spaced(s.tracks, v) && NoLater(s.tracks, clock)
    requires (e.Beating? ==> clock <= e.b.now) && (e.Merging? ==> e.identified != Some(v))
    ensures Spaced(Next(s, e).tracks, v) && NoLater(Next(s, e).tracks, if e.Beating? then e.b.now else clock)
  {
  }

  /**
   Over any run with a clock that never runs back, the tracks of one url of a visitor onto which
   nothing was merged are at least thirty minutes apart.
   */
  lemma {:induction false} TracksAreApart(s: Store, run: Run, v: Uuid, start: int)
    requires LegalRun(s, run) && Monotone(start, run) && NothingMovedOnto(run, v)
    requires Spaced(s.tracks, v) && NoLater(s.tracks, start)
    ensures Spaced(After(s, run).tracks, v) && NoLater(After(s, run).tracks, Clock(start, run))
  {
    hide Legal, Next, Spaced, NoLater;
    match run
    case Begin =>
    case Then(before, e) =>
      TracksAreApart(s, before, v, start);
      NextKeepsSpaced(After(s, before), e, v, Clock(start, before));
  }

  /** Every heartbeat of a run that carries a url leaves the url tracked within its last thirty minutes. */
  lemma EveryBeatIsTracked(s: Store, run: Run, b: Beat, v: Uuid, start: int)
    requires LegalRun(s, Then(run, Beating(b))) && Monotone(start, Then(run, Beating(b))) && NoLater(s.tracks, start)
    requires b.url.Some? && Heartbeat(After(s, run), b).1.Ok?
    ensures TrackedWithin(After(s, Then(run, Beating(b))).tracks, Heartbeat(After(s, run), b).1.value.visitor, b.url.value, b.now)
  {
    hide Heartbeat, TrackedWithin;
    NothingLater(s, run, start);
    BeatLeavesTrack(After(s, run), b);
  }

  lemma {:induction false} NothingLater(s: Store, run: Run, start: int)
    requires LegalRun(s, run) && Monotone(start, run) && NoLater(s.tracks, start)
    ensures NoLater(After(s, run).tracks, Clock(start, run))
  {
    hide Legal, Heartbeat, Merge, Deleted, NoLater;
    match run
    case Begin =>
    case Then(before, e) =>
      NothingLater(s, before, start);
      NextNoLater(After(s, before), e, Clock(start, before));
  }

  lemma NextNoLater(s: Store, e: Event, clock: int)
    requires NoLater(s.tracks, clock) && (e.Beating? ==> clock <= e.b.now)
    ensures NoLater(Next(s, e).tracks, if e.Beating? then e.b.now else clock)
  {
  }

  ghost predicate ApartAcross(tracks: map<Uuid, Track>, v: Uuid, w: Uuid) {
    forall k, l :: k in tracks && l in tracks && tracks[k].visitor == v && tracks[l].visitor == w ==> Apart(tracks[k], tracks[l])
  }

  /** What a reparenting does to the spacing: it holds afterwards exactly when the two rows' tracks were apart. */
  lemma ReparentSpacing(s: Store, m: MergeCall, locks: set<Uuid>, existing: Uuid)
    requires Valid(s) && Selected(s, m, locks, Some(existing)) && existing != m.anonymous
    requires Spaced(s.tracks, existing) && Spaced(s.tracks, m.anonymous)
    ensures Spaced(Merge(s, m, locks, Some(existing)).0.tracks, existing) <==> ApartAcross(s.tracks, m.anonymous, existing)
  {
    hide Merge, Spaced, ApartAcross, Selected;
    AbsorbedTracks(s, m, locks, existing);
    MovedSpacing(s.tracks, m.anonymous, existing);
  }

  lemma AbsorbedTracks(s: Store, m: MergeCall, locks: set<Uuid>, existing: Uuid)
    requires Valid(s) && Selected(s, m, locks, Some(existing)) && existing != m.anonymous
    ensures Merge(s, m, locks, Some(existing)).0.tracks == Reparented(s.tracks, m.anonymous, existing)
  {
  }

  lemma MovedSpacing(tracks: map<Uuid, Track>, from: Uuid, to: Uuid)
    requires Spaced(tracks, from) && Spaced(tracks, to) && from != to
    ensures Spaced(Reparented(tracks, from, to), to) <==> ApartAcross(tracks, from, to)
  {
    var after := Reparented(tracks, from, to);
    if Spaced(after, to) {
      forall k, l | k in tracks && l in tracks && tracks[k].visitor == from && tracks[l].visitor == to
        ensures Apart(tracks[k], tracks[l])
      {
        assert Apart(after[k], after[l]);
      }
    }
  }
}
