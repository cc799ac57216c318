/**
 The visitor store: the one-statement heartbeat that upserts a visitor and its track, and the
 login merge that moves or claims an anonymous visitor. Times are in seconds.
 */
module Visitors {
  import opened Common

  const VISIT_WINDOW := 8 * 3600
  const TRACK_DEDUP := 30 * 60

  datatype Visitor = Visitor(website: Uuid, token: string, identified: bool, digest: string, portalUser: Option<Uuid>,
    visitCount: int, lastConnection: int)

  datatype Track = Track(visitor: Uuid, page: Option<Uuid>, url: string, at: int)

  datatype Store = Store(websites: set<Uuid>, visitors: map<Uuid, Visitor>, tracks: map<Uuid, Track>)

  datatype VisitorError = ForeignKey | NotFound | RowNotFound

  // ---- the heartbeat ----

  /** One heartbeat: the facts of the session, the clock, and the uuids and token it would insert. */
  datatype Beat = Beat(website: Uuid, digest: string, url: Option<string>, page: Option<Uuid>, now: int,
    newId: Uuid, newTrack: Uuid, token: string)

  datatype Outcome = Outcome(visitor: Uuid, inserted: bool, tracked: bool, token: string, identified: bool)

  function Holders(s: Store, digest: string, website: Uuid): set<Uuid> {
    set id | id in s.visitors && s.visitors[id].digest == digest && s.visitors[id].website == website
  }

  /** The conflict target of the upsert: the visitor of the (digest, website) pair. */
  function Holder(s: Store, digest: string, website: Uuid): Option<Uuid> {
    First(Holders(s, digest, website))
  }

  function Returned(v: Visitor, now: int): Visitor {
    v.(lastConnection := now, visitCount := v.visitCount + if v.lastConnection < now - VISIT_WINDOW then 1 else 0)
  }

  predicate SeenLately(tracks: map<Uuid, Track>, visitor: Uuid, url: string, now: int) {
    exists k :: k in tracks && tracks[k].visitor == visitor && tracks[k].url == url && tracks[k].at > now - TRACK_DEDUP
  }

  function VisitorOf(s: Store, b: Beat): Uuid {
    var holder := Holder(s, b.digest, b.website);
    if holder.Some? then holder.value else b.newId
  }

  function RowFor(s: Store, b: Beat): Visitor {
    var holder := Holder(s, b.digest, b.website);
    if holder.Some? && holder.value in s.visitors then Returned(s.visitors[holder.value], b.now)
    else Visitor(b.website, b.token, false, b.digest, None, 0, b.now)
  }

  predicate TracksNow(s: Store, b: Beat) {
    b.url.Some? && !SeenLately(s.tracks, VisitorOf(s, b), b.url.value, b.now)
  }

  function TracksAfter(s: Store, b: Beat): map<Uuid, Track> {
    if TracksNow(s, b) then s.tracks[b.newTrack := Track(VisitorOf(s, b), b.page, b.url.value, b.now)] else s.tracks
  }

  function Heartbeat(s: Store, b: Beat): (Store, Result<Outcome, VisitorError>) {
    var inserted := Holder(s, b.digest, b.website).None?;
    if inserted && b.website !in s.websites then (s, Err(ForeignKey))
    else
      var row := RowFor(s, b);
      (Store(s.websites, s.visitors[VisitorOf(s, b) := row], TracksAfter(s, b)),
       Ok(Outcome(VisitorOf(s, b), inserted, TracksNow(s, b), row.token, row.identified)))
  }

  // ---- the merge ----

  datatype MergeCall = MergeCall(website: Uuid, anonymous: Uuid, principal: Uuid, now: int)

  /** The principal's rows on the website that no other transaction holds. */
  function Identified(s: Store, m: MergeCall, locked: set<Uuid>): set<Uuid> {
    set id | id in s.visitors && s.visitors[id].website == m.website && s.visitors[id].portalUser == Some(m.principal) && id !in locked
  }

  /** fetch_optional: any one of the rows, or none when there are none. */
  predicate Selected(s: Store, m: MergeCall, locked: set<Uuid>, identified: Option<Uuid>) {
    match identified
    case None => Identified(s, m, locked) == {}
    case Some(id) => id in Identified(s, m, locked)
  }

  function Reparented(tracks: map<Uuid, Track>, from: Uuid, to: Uuid): map<Uuid, Track> {
    map k | k in tracks :: if tracks[k].visitor == from then tracks[k].(visitor := to) else tracks[k]
  }

  /** DELETE visitors with its cascade to the tracks. */
  function Deleted(s: Store, gone: set<Uuid>): Store {
    Store(s.websites, s.visitors - gone, map k | k in s.tracks && s.tracks[k].visitor !in gone :: s.tracks[k])
  }

  function Claimed(v: Visitor, principal: Uuid, now: int): Visitor {
    v.(identified := true, portalUser := Some(principal), lastConnection := now)
  }

  /** The merge, run alone. An error commits nothing. */
  function Merge(s: Store, m: MergeCall, locked: set<Uuid>, identified: Option<Uuid>): (Store, Result<Uuid, VisitorError>) {
    match identified
    case Some(existing) =>
      var moved := Deleted(s.(tracks := Reparented(s.tracks, m.anonymous, existing)), {m.anonymous});
      if existing in moved.visitors then (moved, Ok(existing)) else (s, Err(RowNotFound))
    case None =>
      if m.anonymous !in s.visitors || m.anonymous in locked then (s, Err(NotFound))
      else (s.(visitors := s.visitors[m.anonymous := Claimed(s.visitors[m.anonymous], m.principal, m.now)]), Ok(m.anonymous))
  }

  // ---- what holds of the store ----

  /** The unique index on (digest, website), and the foreign key of the tracks. */
  ghost predicate Valid(s: Store) {
    && (forall i, j :: i in s.visitors && j in s.visitors && i != j ==>
          s.visitors[i].digest != s.visitors[j].digest || s.visitors[i].website != s.visitors[j].website)
    && (forall k :: k in s.tracks ==> s.tracks[k].visitor in s.visitors)
  }

  /** The uuids a heartbeat draws are not in use. */
  ghost predicate FreshBeat(s: Store, b: Beat) {
    b.newId !in s.visitors && b.newTrack !in s.tracks
  }

  /** A valid store that uses no id from `next` on. */
  ghost predicate FreshStore(s: Store, next: Uuid) {
    Valid(s) && (forall id :: id in s.visitors ==> id < next) && (forall k :: k in s.tracks ==> k < next)
  }

  lemma BeatKeepsFresh(s: Store, b: Beat, next: Uuid)
    requires FreshStore(s, next) && b.newId == next && b.newTrack == next + 1
    ensures FreshBeat(s, b) && FreshStore(s, next + 2) && FreshStore(Heartbeat(s, b).0, next + 2)
  {
    BeatKeepsValid(s, b);
    HolderIs(s, b.digest, b.website);
    hide Valid, Holder;
  }

  lemma BeatKeepsValid(s: Store, b: Beat)
    requires Valid(s) && FreshBeat(s, b)
    ensures Valid(Heartbeat(s, b).0)
  {
    HolderIs(s, b.digest, b.website);
  }

  lemma HolderIs(s: Store, digest: string, website: Uuid)
    ensures var h := Holder(s, digest, website);
      && (h.Some? ==> h.value in s.visitors && s.visitors[h.value].digest == digest && s.visitors[h.value].website == website)
      && (h.None? ==> forall id :: id in s.visitors ==> s.visitors[id].digest != digest || s.visitors[id].website != website)
  {
    var h := Holder(s, digest, website);
    assert h.Some? ==> h.value in Holders(s, digest, website);
    assert forall id :: id in s.visitors && s.visitors[id].digest == digest && s.visitors[id].website == website ==>
      id in Holders(s, digest, website);
  }

  lemma MergeKeepsValid(s: Store, m: MergeCall, locked: set<Uuid>, identified: Option<Uuid>)
    requires Valid(s) && Selected(s, m, locked, identified)
    ensures Valid(Merge(s, m, locked, identified).0)
  {
  }

  // ---- what one call does ----

  /** A visitor the heartbeat knows: it is marked as seen, and counted as a return after more than eight hours. */
  lemma KnownBeat(s: Store, b: Beat, id: Uuid)
    requires Valid(s) && id in s.visitors && s.visitors[id].digest == b.digest && s.visitors[id].website == b.website
    ensures var (after, r) := Heartbeat(s, b);
      var v := s.visitors[id];
      && after.visitors == s.visitors[id := v.(lastConnection := b.now,
           visitCount := if v.lastConnection < b.now - 28800 then v.visitCount + 1 else v.visitCount)]
      && r.Ok? && r.value.visitor == id && !r.value.inserted && r.value.token == v.token && r.value.identified == v.identified
      && after.websites == s.websites
  {
    HolderIs(s, b.digest, b.website);
    hide Holder, SeenLately;
  }

  /** A visitor it does not know: a new anonymous row with no returns, if the website exists; and else a refusal that writes nothing. */
  lemma NewBeat(s: Store, b: Beat)
    requires forall id :: id in s.visitors ==> s.visitors[id].digest != b.digest || s.visitors[id].website != b.website
    ensures var (after, r) := Heartbeat(s, b);
      && (b.website !in s.websites ==> r == Err(ForeignKey) && after == s)
      && (b.website in s.websites ==>
            && b.newId in after.visitors && after.visitors == s.visitors[b.newId := after.visitors[b.newId]]
            && var v := after.visitors[b.newId];
               && v.website == b.website && v.token == b.token && v.digest == b.digest && !v.identified && v.portalUser.None?
               && v.visitCount == 0 && v.lastConnection == b.now
               && r.Ok? && r.value.visitor == b.newId && r.value.inserted && r.value.token == b.token && !r.value.identified
               && after.websites == s.websites)
  {
    HolderIs(s, b.digest, b.website);
    hide Holder, SeenLately;
  }

  /** The track: of the page and url of the heartbeat, unless the visitor left one of that url in the last thirty minutes. */
  lemma BeatTracks(s: Store, b: Beat)
    requires Heartbeat(s, b).1.Ok?
    ensures var (after, r) := Heartbeat(s, b);
      var seen := b.url.Some? && exists k :: (k in s.tracks && s.tracks[k].visitor == r.value.visitor
        && s.tracks[k].url == b.url.value && s.tracks[k].at > b.now - 1800);
      && (r.value.tracked <==> b.url.Some? && !seen)
      && (!r.value.tracked ==> after.tracks == s.tracks)
      && (r.value.tracked ==> after.tracks == s.tracks[b.newTrack := Track(r.value.visitor, b.page, b.url.value, b.now)])
  {
    hide Holder;
  }

  ghost predicate TrackedWithin(tracks: map<Uuid, Track>, visitor: Uuid, url: string, now: int) {
    exists k :: k in tracks && tracks[k].visitor == visitor && tracks[k].url == url && now - TRACK_DEDUP < tracks[k].at <= now
  }

  /** A heartbeat with a url leaves a track of it from the last thirty minutes. */
  lemma BeatLeavesTrack(s: Store, b: Beat)
    requires b.url.Some? && Heartbeat(s, b).1.Ok? && forall k :: k in s.tracks ==> s.tracks[k].at <= b.now
    ensures TrackedWithin(Heartbeat(s, b).0.tracks, Heartbeat(s, b).1.value.visitor, b.url.value, b.now)
  {
    var after := Heartbeat(s, b).0;
    if TracksNow(s, b) {
      assert b.newTrack in after.tracks;
    } else {
      var k :| k in s.tracks && s.tracks[k].visitor == VisitorOf(s, b) && s.tracks[k].url == b.url.value
        && s.tracks[k].at > b.now - TRACK_DEDUP;
      assert k in after.tracks;
    }
  }

  /**
   Every committed merge keeps every track: same ids, urls, pages and times, the absorbed row's
   tracks now the survivor's; and the survivor holds the principal.
   */
  lemma MergeKeepsTracks(s: Store, m: MergeCall, locked: set<Uuid>, identified: Option<Uuid>)
    requires Valid(s) && Selected(s, m, locked, identified) && Merge(s, m, locked, identified).1.Ok?
    ensures var (after, answer) := Merge(s, m, locked, identified);
      && after.tracks.Keys == s.tracks.Keys
      && (forall k :: k in s.tracks ==>
            after.tracks[k] == if s.tracks[k].visitor == m.anonymous then s.tracks[k].(visitor := answer.value) else s.tracks[k])
      && answer.value in after.visitors && after.visitors[answer.value].portalUser == Some(m.principal)
      && after.visitors.Keys == s.visitors.Keys - if identified.Some? then {m.anonymous} else {}
  {
  }

  /** The rows the merge may find: the principal's own on the website, that nobody holds locked. */
  lemma SelectedIs(s: Store, m: MergeCall, locked: set<Uuid>, identified: Option<Uuid>)
    requires Selected(s, m, locked, identified)
    ensures identified.Some? ==> (
      var id := identified.value;
      && id in s.visitors && s.visitors[id].website == m.website && s.visitors[id].portalUser == Some(m.principal) && id !in locked)
    ensures identified.None? ==>
      forall id :: id in s.visitors && s.visitors[id].website == m.website && s.visitors[id].portalUser == Some(m.principal) ==> id in locked
  {
    forall id | id in s.visitors && s.visitors[id].website == m.website && s.visitors[id].portalUser == Some(m.principal)
      ensures identified.None? ==> id in locked
    {
      assert id !in locked ==> id in Identified(s, m, locked);
    }
  }

  /** Without one, the row the call names is claimed in place, keeping its token, digest, website and count; a missing or locked one is not found. */
  lemma ClaimIs(s: Store, m: MergeCall, locked: set<Uuid>)
    ensures var (after, r) := Merge(s, m, locked, None);
      if m.anonymous in s.visitors && m.anonymous !in locked then
        && r == Ok(m.anonymous) && after.tracks == s.tracks && after.websites == s.websites
        && m.anonymous in after.visitors && after.visitors == s.visitors[m.anonymous := after.visitors[m.anonymous]]
        && var was, v := s.visitors[m.anonymous], after.visitors[m.anonymous];
           && v.identified && v.portalUser == Some(m.principal) && v.lastConnection == m.now
           && v.website == was.website && v.token == was.token && v.digest == was.digest && v.visitCount == was.visitCount
      else r == Err(NotFound) && after == s
  {
  }

  /** With one, the named row goes, its tracks are the survivor's, and no other row changes. */
  lemma AbsorbIs(s: Store, m: MergeCall, locked: set<Uuid>, existing: Uuid)
    requires Valid(s) && Selected(s, m, locked, Some(existing))
    ensures var (after, r) := Merge(s, m, locked, Some(existing));
      if existing == m.anonymous then r == Err(RowNotFound) && after == s
      else
        && r == Ok(existing) && after.visitors == s.visitors - {m.anonymous} && after.websites == s.websites
        && after.tracks.Keys == s.tracks.Keys
        && forall k :: k in s.tracks ==>
             after.tracks[k] == s.tracks[k].(visitor := if s.tracks[k].visitor == m.anonymous then existing else s.tracks[k].visitor)
  {
  }

  /** Rows the call may take: anonymous ones of its website, and the principal's own. */
  predicate Open(v: Visitor, m: MergeCall) {
    (v.portalUser.None? && v.website == m.website) || v.portalUser == Some(m.principal)
  }

  /** Every other row is still there as it was, with its tracks. */
  ghost predicate KeepsOthers(s: Store, m: MergeCall, after: Store) {
    && (forall id :: id in s.visitors && !Open(s.visitors[id], m) ==> id in after.visitors && after.visitors[id] == s.visitors[id])
    && (forall k :: k in s.tracks && s.tracks[k].visitor in s.visitors && !Open(s.visitors[s.tracks[k].visitor], m) ==>
          k in after.tracks && after.tracks[k] == s.tracks[k])
  }

  /** A committed merge takes nobody else's row exactly when the row it names is absent or open to the call. */
  lemma MergeTakesNoOthersIff(s: Store, m: MergeCall, locked: set<Uuid>, identified: Option<Uuid>)
    requires Valid(s) && Selected(s, m, locked, identified) && Merge(s, m, locked, identified).1.Ok?
    ensures KeepsOthers(s, m, Merge(s, m, locked, identified).0)
      <==> (m.anonymous in s.visitors ==> Open(s.visitors[m.anonymous], m))
  {
    var after := Merge(s, m, locked, identified).0;
    MergeKeepsTracks(s, m, locked, identified);
    if m.anonymous in s.visitors && !Open(s.visitors[m.anonymous], m) {
      assert m.anonymous in after.visitors ==> after.visitors[m.anonymous].portalUser == Some(m.principal);
    }
  }

  /**
   One visitor, two logins: the second principal, who has no row yet, is given the row the first
   one held, and the first one holds none any more.
   */
  lemma SecondLoginTakesOver(b: Beat, p: Uuid, q: Uuid, t1: int, t2: int)
    requires p != q
    ensures var s := Heartbeat(Store({b.website}, map[], map[]), b).0;
      var first, second := MergeCall(b.website, b.newId, p, t1), MergeCall(b.website, b.newId, q, t2);
      var once := Merge(s, first, {}, None).0;
      var twice := Merge(once, second, {}, None).0;
      && Selected(s, first, {}, None) && Merge(s, first, {}, None).1 == Ok(b.newId) && Identified(once, first, {}) == {b.newId}
      && Selected(once, second, {}, None) && Merge(once, second, {}, None).1 == Ok(b.newId)
      && Identified(twice, second, {}) == {b.newId} && Identified(twice, first, {}) == {} && !KeepsOthers(once, second, twice)
  {
    var s := Heartbeat(Store({b.website}, map[], map[]), b).0;
    assert Holders(Store({b.website}, map[], map[]), b.digest, b.website) == {};
    assert s.visitors == map[b.newId := Visitor(b.website, b.token, false, b.digest, None, 0, b.now)];
    hide Heartbeat;
    var first, second := MergeCall(b.website, b.newId, p, t1), MergeCall(b.website, b.newId, q, t2);
    var once := Merge(s, first, {}, None).0;
    var twice := Merge(once, second, {}, None).0;
    assert b.newId in s.visitors && b.newId in once.visitors && !Open(once.visitors[b.newId], second);
    assert once.visitors[b.newId] != twice.visitors[b.newId];
  }

  /** A replay that names the identified row itself would delete the survivor: it rolls back. */
  lemma SelfMergeRollsBack(s: Store, m: MergeCall, locked: set<Uuid>)
    requires Selected(s, m, locked, Some(m.anonymous))
    ensures Merge(s, m, locked, Some(m.anonymous)) == (s, Err(RowNotFound))
  {
  }

  /** Once the anonymous row is absorbed, the same call again changes nothing and answers the same survivor. */
  lemma AbsorbTwice(s: Store, m: MergeCall, locked: set<Uuid>, existing: Uuid)
    requires Valid(s) && Selected(s, m, locked, Some(existing)) && existing != m.anonymous
    ensures var after := Merge(s, m, locked, Some(existing)).0;
      Selected(after, m, locked, Some(existing)) && Merge(after, m, locked, Some(existing)) == (after, Ok(existing))
  {
    hide Reparented, Deleted;
    AbsorbLeaves(s, m, locked, existing);
    NothingToAbsorb(Merge(s, m, locked, Some(existing)).0, m.anonymous, existing);
  }

  lemma AbsorbLeaves(s: Store, m: MergeCall, locked: set<Uuid>, existing: Uuid)
    requires Selected(s, m, locked, Some(existing)) && existing != m.anonymous
    ensures var after := Merge(s, m, locked, Some(existing)).0;
      && Merge(s, m, locked, Some(existing)).1 == Ok(existing)
      && m.anonymous !in after.visitors && existing in Identified(after, m, locked)
      && forall k :: k in after.tracks ==> after.tracks[k].visitor != m.anonymous
  {
  }

  lemma NothingToAbsorb(s: Store, from: Uuid, to: Uuid)
    requires from !in s.visitors && forall k :: k in s.tracks ==> s.tracks[k].visitor != from
    ensures Deleted(s.(tracks := Reparented(s.tracks, from, to)), {from}) == s
  {
  }

  // ---- the transactions ----

  class VisitorEngine {
    var websites: set<Uuid>
    var visitors: map<Uuid, Visitor>
    var tracks: map<Uuid, Track>
    var nextId: Uuid

    function Snapshot(): Store
      reads this
    {
      Store(websites, visitors, tracks)
    }

    ghost predicate Fresh()
      reads this
    {
      FreshStore(Snapshot(), nextId)
    }

    method RecordHeartbeat(website: Uuid, digest: string, url: Option<string>, page: Option<Uuid>, now: int, token: string)
      returns (r: Result<Outcome, VisitorError>)
      requires Fresh()
      modifies this
      ensures Fresh()
      ensures var b := Beat(website, digest, url, if url.Some? then page else None, now, old(nextId), old(nextId) + 1, token);
        (Snapshot(), r) == Heartbeat(old(Snapshot()), b)
    {
      ghost var s := Snapshot();
      ghost var b := Beat(website, digest, url, if url.Some? then page else None, now, nextId, nextId + 1, token);
      BeatKeepsFresh(s, b, nextId);
      HolderIs(s, digest, website);
      hide FreshStore, Holder, SeenLately;
      var newId, newTrack := nextId, nextId + 1;
      nextId := nextId + 2;
      var holder := Holder(Snapshot(), digest, website);
      var id := if holder.Some? then holder.value else newId;
      if holder.None? {
        if website !in websites {
          return Err(ForeignKey);
        }
        visitors := visitors[id := Visitor(website, token, false, digest, None, 0, now)];
      } else {
        var v := visitors[id];
        var returning := v.lastConnection < now - VISIT_WINDOW;
        visitors := visitors[id := v.(lastConnection := now, visitCount := v.visitCount + if returning then 1 else 0)];
      }
      var tracked := url.Some? && !SeenLately(tracks, id, url.value, now);
      if tracked {
        tracks := tracks[newTrack := Track(id, page, url.value, now)];
      }
      return Ok(Outcome(id, holder.None?, tracked, visitors[id].token, visitors[id].identified));
    }

    method MergeVisitor(m: MergeCall, locked: set<Uuid>) returns (r: Result<Uuid, VisitorError>, ghost identified: Option<Uuid>)
      requires Fresh()
      modifies this`visitors, this`tracks
      ensures Fresh() && Selected(old(Snapshot()), m, locked, identified)
      ensures (Snapshot(), r) == Merge(old(Snapshot()), m, locked, identified)
    {
      var s := Snapshot();
      var rows := Identified(s, m, locked);
      if rows != {} {
        var existing :| existing in rows;
        identified := Some(existing);
        MergeKeepsValid(s, m, locked, identified);
        tracks := Reparented(tracks, m.anonymous, existing);
        var deleted := Deleted(Snapshot(), {m.anonymous});
        visitors, tracks := deleted.visitors, deleted.tracks;
        if existing !in visitors {
          visitors, tracks := s.visitors, s.tracks;
          return Err(RowNotFound), identified;
        }
        return Ok(existing), identified;
      }
      identified := None;
      MergeKeepsValid(s, m, locked, identified);
      if m.anonymous !in visitors || m.anonymous in locked {
        return Err(NotFound), identified;
      }
      visitors := visitors[m.anonymous := Claimed(visitors[m.anonymous], m.principal, m.now)];
      return Ok(m.anonymous), identified;
    }
  }
}
