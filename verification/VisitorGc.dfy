/**
 The retention sweep: anonymous visitors past the cutoff are deleted oldest first, in committed
 batches that skip locked rows.
 */
module VisitorGc {
  import opened Common
  import opened Visitors
  import Sorting

  /** Anonymous rows last seen before the cutoff. */
  function Eligible(s: Store, cutoff: int): set<Uuid> {
    set id | id in s.visitors && s.visitors[id].portalUser.None? && s.visitors[id].lastConnection < cutoff
  }

  /** ORDER BY last_connection_at LIMIT batch, skipping the locked rows: a set the query may claim. */
  ghost predicate IsBatch(s: Store, cutoff: int, batch: nat, locked: set<Uuid>, gone: set<Uuid>) {
    var free := Eligible(s, cutoff) - locked;
    && gone <= free && |gone| <= batch && (|gone| < batch ==> gone == free)
    && forall g, r :: g in gone && r in free - gone ==> s.visitors[g].lastConnection <= s.visitors[r].lastConnection
  }

  /** The committed batches of a sweep so far, latest last. */
  datatype Batches = Start | Then(before: Batches, gone: set<Uuid>)

  function After(s: Store, h: Batches): Store {
    match h
    case Start => s
    case Then(before, gone) => Deleted(After(s, before), gone)
  }

  function All(h: Batches): set<Uuid> {
    match h
    case Start => {}
    case Then(before, gone) => All(before) + gone
  }

  function Count(h: Batches): nat {
    match h
    case Start => 0
    case Then(before, _) => Count(before) + 1
  }

  function Total(h: Batches): nat {
    match h
    case Start => 0
    case Then(before, gone) => Total(before) + |gone|
  }

  /** Every committed batch claimed something, under the cutoff and the locks of its moment. */
  ghost predicate IsSweeping(s: Store, cutoff: nat -> int, batch: nat, locked: nat -> set<Uuid>, h: Batches) {
    match h
    case Start => true
    case Then(before, gone) =>
      && IsSweeping(s, cutoff, batch, locked, before)
      && gone != {} && IsBatch(After(s, before), cutoff(Count(before)), batch, locked(Count(before)), gone)
  }

  /** The whole sweep: at its end there was nothing left to claim. */
  ghost predicate IsSweep(s: Store, cutoff: nat -> int, batch: nat, locked: nat -> set<Uuid>, h: Batches) {
    && IsSweeping(s, cutoff, batch, locked, h)
    && IsBatch(After(s, h), cutoff(Count(h)), batch, locked(Count(h)), {})
  }

  /** A fixed cutoff, and no locked rows. */
  ghost predicate Undisturbed(cutoff: nat -> int, locked: nat -> set<Uuid>, fixed: int) {
    forall k: nat :: cutoff(k) == fixed && locked(k) == {}
  }

  // ---- the batch and the loop ----

  datatype SweepSummary = SweepSummary(swept: nat, batches: nat)

  function Ages(s: Store): map<Uuid, int> {
    map id | id in s.visitors :: s.visitors[id].lastConnection
  }

  lemma Oldest(s: Store, ids: set<Uuid>) returns (id: Uuid)
    requires ids != {} && ids <= s.visitors.Keys
    ensures id in ids && forall x :: x in ids ==> s.visitors[id].lastConnection <= s.visitors[x].lastConnection
  {
    var leq := (a: int, b: int) => a <= b;
    id := Sorting.LeastBy(leq, Ages(s), ids);
    assert forall x :: x in ids ==> leq(Ages(s)[id], Ages(s)[x]);
  }

  lemma DeletedKeepsFresh(s: Store, gone: set<Uuid>)
    requires Valid(s)
    ensures var after := Deleted(s, gone);
      Valid(after) && after.websites == s.websites && after.visitors.Keys <= s.visitors.Keys && after.tracks.Keys <= s.tracks.Keys
  {
  }

  /** The claiming subquery, with the choice among equal ages left open. */
  method ClaimOldest(s: Store, cutoff: int, batch: nat, locked: set<Uuid>) returns (claimed: set<Uuid>)
    ensures IsBatch(s, cutoff, batch, locked, claimed)
  {
    claimed := {};
    var free := Eligible(s, cutoff) - locked;
    ghost var all := free;
    while |claimed| < batch && free != {}
      invariant claimed + free == all && claimed !! free && |claimed| <= batch
      invariant forall g, r :: g in claimed && r in free ==> s.visitors[g].lastConnection <= s.visitors[r].lastConnection
      decreases free
    {
      ghost var oldest := Oldest(s, free);
      assert exists id :: id in free && forall x :: x in free ==> s.visitors[id].lastConnection <= s.visitors[x].lastConnection;
      var id :| id in free && forall x :: x in free ==> s.visitors[id].lastConnection <= s.visitors[x].lastConnection;
      claimed, free := claimed + {id}, free - {id};
    }
  }

  method DeleteBatch(d: VisitorEngine, cutoff: int, batch: nat, locked: set<Uuid>) returns (deleted: nat, ghost gone: set<Uuid>)
    requires d.Fresh()
    modifies d`visitors, d`tracks
    ensures d.Fresh() && IsBatch(old(d.Snapshot()), cutoff, batch, locked, gone)
    ensures d.Snapshot() == Deleted(old(d.Snapshot()), gone) && deleted == |gone|
  {
    hide Valid, Deleted, IsBatch;
    var s := d.Snapshot();
    var claimed := ClaimOldest(s, cutoff, batch, locked);
    DeletedKeepsFresh(s, claimed);
    var after := Deleted(s, claimed);
    d.visitors, d.tracks := after.visitors, after.tracks;
    return |claimed|, claimed;
  }

  lemma Fewer(s: Store, gone: set<Uuid>)
    requires gone != {} && gone <= s.visitors.Keys
    ensures |Deleted(s, gone).visitors.Keys| < |s.visitors.Keys|
  {
  }

  /** The sweep ends, whatever rows are locked while it runs and however the cutoff moves between batches. */
  method Sweep(d: VisitorEngine, cutoff: nat -> int, batch: nat, locked: nat -> set<Uuid>)
    returns (summary: SweepSummary, ghost h: Batches)
    requires d.Fresh()
    modifies d`visitors, d`tracks
    ensures d.Fresh() && IsSweep(old(d.Snapshot()), cutoff, batch, locked, h)
    ensures d.Snapshot() == After(old(d.Snapshot()), h)
    ensures summary == SweepSummary(Total(h), Count(h))
  {
    summary, h := SweepSummary(0, 0), Start;
    ghost var s := d.Snapshot();
    while true
      invariant d.Fresh() && d.Snapshot() == After(s, h)
      invariant IsSweeping(s, cutoff, batch, locked, h)
      invariant summary == SweepSummary(Total(h), Count(h))
      decreases |d.visitors.Keys|
    {
      hide IsBatch, Deleted, Valid, Eligible;
      var n := summary.batches;
      var deleted, claimed := DeleteBatch(d, cutoff(n), batch, locked(n));
      if deleted == 0 {
        assert claimed == {};
        assert d.Snapshot() == After(s, h) by { NothingDeleted(After(s, h)); }
        break;
      }
      BatchClaims(After(s, h), cutoff(n), batch, locked(n), claimed);
      Fewer(After(s, h), claimed);
      h := Then(h, claimed);
      summary := SweepSummary(summary.swept + deleted, summary.batches + 1);
    }
  }

  lemma NothingDeleted(s: Store)
    ensures Deleted(s, {}) == s
  {
  }

  // ---- what a sweep deletes ----

  /** What a batch claims was there, anonymous, unlocked and past the cutoff. */
  lemma BatchClaims(s: Store, cutoff: int, batch: nat, locked: set<Uuid>, gone: set<Uuid>)
    requires IsBatch(s, cutoff, batch, locked, gone)
    ensures gone <= Eligible(s, cutoff) - locked && gone <= s.visitors.Keys
  {
  }

  lemma {:induction false} AfterIs(s: Store, h: Batches)
    ensures After(s, h) == Deleted(s, All(h))
  {
    hide Deleted;
    match h
    case Start => NothingDeleted(s);
    case Then(before, gone) =>
      AfterIs(s, before);
      DeletedTwice(s, All(before), gone);
  }

  lemma DeletedTwice(s: Store, a: set<Uuid>, b: set<Uuid>)
    ensures Deleted(Deleted(s, a), b) == Deleted(s, a + b)
  {
  }

  lemma EligibleLeft(s: Store, h: Batches, cutoff: int)
    ensures Eligible(After(s, h), cutoff) == Eligible(s, cutoff) - All(h)
    ensures After(s, h).visitors == s.visitors - All(h)
  {
  }

  /** As many of the free rows as the batch holds. */
  predicate Fills(batch: nat, free: set<Uuid>, gone: set<Uuid>) {
    gone <= free && |gone| <= batch && (|gone| < batch ==> gone == free)
  }

  ghost predicate OldestOf(s: Store, free: set<Uuid>, gone: set<Uuid>) {
    && gone <= s.visitors.Keys && free <= s.visitors.Keys
    && forall g, r :: g in gone && r in free - gone ==> s.visitors[g].lastConnection <= s.visitors[r].lastConnection
  }

  /** What the latest batch claimed, in terms of the store the sweep began with. */
  lemma LatestBatch(s: Store, cutoff: nat -> int, batch: nat, locked: nat -> set<Uuid>, h: Batches)
    requires h.Then? && IsSweeping(s, cutoff, batch, locked, h)
    ensures var n := Count(h.before); var free := Eligible(s, cutoff(n)) - All(h.before) - locked(n);
      Fills(batch, free, h.gone) && OldestOf(s, free, h.gone)
  {
    hide All, After, Eligible, Count;
    var n, t := Count(h.before), After(s, h.before);
    EligibleLeft(s, h.before, cutoff(n));
    assert IsBatch(t, cutoff(n), batch, locked(n), h.gone);
    InStore(s, cutoff(n));
    InStore(t, cutoff(n));
  }

  lemma InStore(s: Store, cutoff: int)
    ensures Eligible(s, cutoff) <= s.visitors.Keys
  {
  }

  lemma Disjoint(a: set<Uuid>, b: set<Uuid>)
    requires a !! b
    ensures |a + b| == |a| + |b|
  {
  }

  /**
   Under any locks and any cutoffs: the deleted rows were there, anonymous and last seen before the
   latest of the cutoffs so far; and every deleted row is counted once.
   */
  lemma {:induction false} SweepIsSafe(s: Store, cutoff: nat -> int, batch: nat, locked: nat -> set<Uuid>, h: Batches, latest: int)
    requires IsSweeping(s, cutoff, batch, locked, h) && forall k: nat :: k < Count(h) ==> cutoff(k) <= latest
    ensures All(h) <= Eligible(s, latest) && Total(h) == |All(h)|
  {
    match h
    case Start =>
    case Then(before, gone) =>
      SweepIsSafe(s, cutoff, batch, locked, before, latest);
      LatestBatch(s, cutoff, batch, locked, h);
      Earlier(s, cutoff(Count(before)), latest);
      hide Eligible, IsBatch, IsSweeping;
      Disjoint(All(before), gone);
  }

  lemma Earlier(s: Store, cutoff: int, latest: int)
    requires cutoff <= latest
    ensures Eligible(s, cutoff) <= Eligible(s, latest)
  {
  }

  /** The batch that took the row, counted from zero. */
  function BatchOf(h: Batches, id: Uuid): (n: Option<nat>)
    ensures n.Some? <==> id in All(h)
    ensures n.Some? ==> n.value < Count(h)
  {
    match h
    case Start => None
    case Then(before, gone) => if id in All(before) then BatchOf(before, id) else if id in gone then Some(Count(before)) else None
  }

  /** r was there for the taking when the batch that took g was claimed. */
  ghost predicate PassedOver(s: Store, cutoff: nat -> int, locked: nat -> set<Uuid>, h: Batches, g: Uuid, r: Uuid) {
    && BatchOf(h, g).Some? && (BatchOf(h, r).Some? ==> BatchOf(h, g).value < BatchOf(h, r).value)
    && r in Eligible(s, cutoff(BatchOf(h, g).value)) - locked(BatchOf(h, g).value)
  }

  /** Whatever is locked and however the cutoff moves: a deleted row is no newer than any row its batch passed over. */
  lemma {:induction false} OldestFirst(s: Store, cutoff: nat -> int, batch: nat, locked: nat -> set<Uuid>, h: Batches, g: Uuid, r: Uuid)
    requires IsSweeping(s, cutoff, batch, locked, h) && PassedOver(s, cutoff, locked, h, g, r)
    ensures g in s.visitors && r in s.visitors && s.visitors[g].lastConnection <= s.visitors[r].lastConnection
  {
    hide IsBatch, Eligible;
    if g in All(h.before) {
      OldestFirst(s, cutoff, batch, locked, h.before, g, r);
    } else {
      LatestBatch(s, cutoff, batch, locked, h);
      InStore(s, cutoff(Count(h.before)));
    }
  }

  /** Without locks and at a fixed cutoff, after any number of batches no deleted row is newer than an eligible one that remains. */
  lemma OldestFirstUndisturbed(s: Store, cutoff: nat -> int, batch: nat, locked: nat -> set<Uuid>, fixed: int,
      h: Batches, g: Uuid, r: Uuid)
    requires IsSweeping(s, cutoff, batch, locked, h) && Undisturbed(cutoff, locked, fixed)
    requires g in All(h) && r in Eligible(s, fixed) - All(h)
    ensures g in s.visitors && r in s.visitors && s.visitors[g].lastConnection <= s.visitors[r].lastConnection
  {
    hide IsBatch, Eligible, IsSweeping, All;
    OldestFirst(s, cutoff, batch, locked, h, g, r);
  }

  /** The room in n batches. */
  function Room(n: nat, batch: nat): nat {
    n * batch
  }

  /** All the room is used, or nothing is left. */
  predicate Full(all: set<Uuid>, room: nat, eligible: set<Uuid>) {
    all <= eligible && |all| == if room < |eligible| then room else |eligible|
  }

  /** Each batch but the last is full: after n of them, n * batch of the eligible rows are gone, or all. */
  lemma {:induction false} BatchesAreFull(s: Store, cutoff: nat -> int, batch: nat, locked: nat -> set<Uuid>, fixed: int, h: Batches)
    requires IsSweeping(s, cutoff, batch, locked, h) && Undisturbed(cutoff, locked, fixed)
    ensures Full(All(h), Room(Count(h), batch), Eligible(s, fixed))
    ensures h.Then? ==> Room(Count(h.before), batch) < |Eligible(s, fixed)|
  {
    hide Full, Fills, OldestOf, Room, Eligible, IsBatch, After;
    var eligible := Eligible(s, fixed);
    match h
    case Start => NothingYet(batch, eligible);
    case Then(before, gone) =>
      BatchesAreFull(s, cutoff, batch, locked, fixed, before);
      LatestBatch(s, cutoff, batch, locked, h);
      var earlier, n := All(before), Count(before);
      assert eligible - earlier - {} == eligible - earlier;
      NextMultiple(n, batch);
      FullNext(batch, eligible, earlier, gone, Room(n, batch));
  }

  lemma NothingYet(batch: nat, eligible: set<Uuid>)
    ensures Full({}, Room(0, batch), eligible)
  {
  }

  lemma NextMultiple(n: nat, batch: nat)
    ensures Room(n + 1, batch) == Room(n, batch) + batch
  {
  }

  lemma FullNext(batch: nat, eligible: set<Uuid>, earlier: set<Uuid>, gone: set<Uuid>, room: nat)
    requires Full(earlier, room, eligible) && gone != {} && Fills(batch, eligible - earlier, gone)
    ensures Full(earlier + gone, room + batch, eligible) && room < |eligible|
  {
    SubsetSize(earlier, eligible);
    SubsetSize(gone, eligible - earlier);
    Disjoint(earlier, gone);
  }

  lemma CeilingIs(n: nat, size: nat, batch: nat)
    requires batch >= 1 && size <= Room(n, batch) && (n > 0 ==> Room(n - 1, batch) < size)
    ensures n == (size + batch - 1) / batch
  {
    if n > 0 {
      NextMultiple(n - 1, batch);
    }
    QuotientIs(size + batch - 1, batch, n);
  }

  lemma QuotientIs(x: nat, b: nat, n: nat)
    requires b >= 1 && n * b <= x < n * b + b
    ensures x / b == n
  {
    var q := x / b;
    assert q * b <= x < q * b + b;
    AtLeastOne(n - q, b);
    AtLeastOne(q - n, b);
    assert (n - q) * b == n * b - q * b && (q - n) * b == q * b - n * b;
  }

  lemma AtLeastOne(k: int, b: nat)
    ensures k >= 1 ==> k * b >= b
  {
  }

  /**
   At a fixed cutoff, with a batch of at least one and no locked rows, the sweep deletes exactly the
   eligible rows with their tracks, reports their number, and commits the smallest number of
   batches that could hold them.
   */
  lemma SweepIsComplete(s: Store, cutoff: nat -> int, batch: nat, locked: nat -> set<Uuid>, fixed: int, h: Batches)
    requires batch >= 1 && IsSweep(s, cutoff, batch, locked, h) && Undisturbed(cutoff, locked, fixed)
    ensures After(s, h) == Deleted(s, Eligible(s, fixed))
    ensures Total(h) == |Eligible(s, fixed)|
    ensures Count(h) == (|Eligible(s, fixed)| + batch - 1) / batch
  {
    hide Eligible, IsSweep, After, Total, All, Room, Count;
    EverythingGone(s, cutoff, batch, locked, fixed, h);
    BatchesAreFull(s, cutoff, batch, locked, fixed, h);
    SweepIsSafe(s, cutoff, batch, locked, h, fixed);
    AfterIs(s, h);
    RoomEnough(h, Eligible(s, fixed), batch);
  }

  lemma EverythingGone(s: Store, cutoff: nat -> int, batch: nat, locked: nat -> set<Uuid>, fixed: int, h: Batches)
    requires batch >= 1 && IsSweep(s, cutoff, batch, locked, h) && Undisturbed(cutoff, locked, fixed)
    ensures IsSweeping(s, cutoff, batch, locked, h) && All(h) == Eligible(s, fixed)
  {
    hide Eligible, IsSweeping, After, All;
    EligibleLeft(s, h, fixed);
    assert IsBatch(After(s, h), fixed, batch, {}, {});
    SweepIsSafe(s, cutoff, batch, locked, h, fixed);
  }

  lemma RoomEnough(h: Batches, eligible: set<Uuid>, batch: nat)
    requires batch >= 1 && Full(eligible, Room(Count(h), batch), eligible)
    requires h.Then? ==> Room(Count(h.before), batch) < |eligible|
    ensures Count(h) == (|eligible| + batch - 1) / batch
  {
    hide Room;
    CeilingIs(Count(h), |eligible|, batch);
  }

  /** Under any locks and cutoffs: whoever is deleted is bound to no principal and was last seen before the latest cutoff. */
  lemma DeletedWereStale(s: Store, cutoff: nat -> int, batch: nat, locked: nat -> set<Uuid>, h: Batches, latest: int, id: Uuid)
    requires IsSweeping(s, cutoff, batch, locked, h) && (forall k: nat :: k < Count(h) ==> cutoff(k) <= latest)
    requires id in s.visitors && id !in After(s, h).visitors
    ensures s.visitors[id].portalUser.None? && s.visitors[id].lastConnection < latest
  {
    SweepIsSafe(s, cutoff, batch, locked, h, latest);
    AfterIs(s, h);
    hide IsSweeping, After;
  }

  /**
   At a fixed cutoff without locks the survivors are exactly the visitors of principals and those seen
   since, as they were, with their tracks.
   */
  lemma SurvivorsAre(s: Store, cutoff: nat -> int, batch: nat, locked: nat -> set<Uuid>, fixed: int, h: Batches, id: Uuid, k: Uuid)
    requires batch >= 1 && IsSweep(s, cutoff, batch, locked, h) && Undisturbed(cutoff, locked, fixed) && Valid(s)
    ensures var after := After(s, h);
      && (id in after.visitors <==> id in s.visitors && (s.visitors[id].portalUser.Some? || s.visitors[id].lastConnection >= fixed))
      && (id in after.visitors ==> after.visitors[id] == s.visitors[id])
      && (k in after.tracks <==> k in s.tracks && s.tracks[k].visitor in after.visitors)
      && (k in after.tracks ==> after.tracks[k] == s.tracks[k])
  {
    SweepIsComplete(s, cutoff, batch, locked, fixed, h);
    hide IsSweep, After, Undisturbed;
  }
}
