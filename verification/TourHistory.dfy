/**
 The tour store over whole runs: what a consumption answers is decided by the history of its name
 since the last deletion or reset.
 */
module TourHistory {
  import opened Common
  import opened Text
  import opened Tours
  import Sorting

  datatype Event =
    | Upsert(input: Input, newId: Uuid)
    | Delete(name: string)
    | Consume(principal: Uuid, name: string, now: int)
    | Reset(name: string)

  datatype Answer =
    | Written(done: Result<(), TourError>)
    | Taken(outcome: Result<Outcome, TourError>)
    | Dropped(facts: Result<nat, TourError>)

  function Step(s: Store, e: Event): (Store, Answer) {
    match e
    case Upsert(input, newId) => var (after, r) := UpsertTour(s, input, newId); (after, Written(r))
    case Delete(name) => var (after, r) := DeleteTour(s, name); (after, Written(r))
    case Consume(principal, name, now) => var (after, r) := ConsumeTour(s, principal, name, now); (after, Taken(r))
    case Reset(name) => var (after, r) := ResetTour(s, name); (after, Dropped(r))
  }

  function BookStep(b: Book, e: Event): (Book, Answer) {
    match e
    case Upsert(input, newId) => var (after, r) := BookUpsert(b, input); (after, Written(r))
    case Delete(name) => var (after, r) := BookDelete(b, name); (after, Written(r))
    case Consume(principal, name, now) => var (after, r) := BookConsume(b, principal, name, now); (after, Taken(r))
    case Reset(name) => var (after, r) := BookReset(b, name); (after, Dropped(r))
  }

  /** The tables after the first n events, from empty tables. */
  function StoreAfter(run: seq<Event>, n: nat): Store
    requires n <= |run|
  {
    if n == 0 then Store(map[], map[]) else Step(StoreAfter(run, n - 1), run[n - 1]).0
  }

  function BookAfter(run: seq<Event>, n: nat): Book
    requires n <= |run|
  {
    if n == 0 then map[] else BookStep(BookAfter(run, n - 1), run[n - 1]).0
  }

  /** What the tables answer to the event number n. */
  function AnswerAt(run: seq<Event>, n: nat): Answer
    requires n < |run|
  {
    Step(StoreAfter(run, n), run[n]).1
  }

  /** Every insert draws an id the table does not hold. */
  ghost predicate FreshIds(run: seq<Event>) {
    forall i :: 0 <= i < |run| && run[i].Upsert? ==> Unused(StoreAfter(run, i), run[i].newId)
  }

  lemma StepRefines(s: Store, e: Event)
    requires Valid(s) && (e.Upsert? ==> Unused(s, e.newId))
    ensures Valid(Step(s, e).0) && (BookOf(Step(s, e).0), Step(s, e).1) == BookStep(BookOf(s), e)
  {
    hide BookOf, UpsertTour, DeleteTour, ConsumeTour, ResetTour, BookUpsert, BookDelete, BookConsume, BookReset;
    match e
    case Upsert(input, newId) => UpsertRefines(s, input, newId);
    case Delete(name) => DeleteRefines(s, name);
    case Consume(principal, name, now) => ConsumeRefines(s, principal, name, now);
    case Reset(name) => ResetRefines(s, name);
  }

  lemma EmptyBook()
    ensures BookOf(Store(map[], map[])) == map[]
  {
  }

  /** After any run the tables stand for the map, and they give the answers the map gives. */
  lemma {:induction false} RunRefines(run: seq<Event>, n: nat)
    requires FreshIds(run) && n <= |run|
    ensures Valid(StoreAfter(run, n)) && BookOf(StoreAfter(run, n)) == BookAfter(run, n)
    ensures n < |run| ==> AnswerAt(run, n) == BookStep(BookAfter(run, n), run[n]).1
  {
    hide BookOf, Step, BookStep;
    if n == 0 {
      EmptyBook();
    } else {
      RunRefines(run, n - 1);
      StepRefines(StoreAfter(run, n - 1), run[n - 1]);
    }
    if n < |run| {
      StepRefines(StoreAfter(run, n), run[n]);
    }
  }

  // ---- histories ----

  predicate Erases(e: Event, name: string) {
    (e.Delete? || e.Reset?) && Trim(e.name) == name
  }

  /** Event j is a successful consumption of the name by the principal. */
  predicate Takes(run: seq<Event>, j: nat, principal: Uuid, name: string)
    requires j < |run|
  {
    run[j].Consume? && run[j].principal == principal && Trim(run[j].name) == name && AnswerAt(run, j).outcome.Ok?
  }

  /** The first successful consumption before event n and after the last deletion or reset of the name. */
  ghost predicate FirstTake(run: seq<Event>, n: nat, principal: Uuid, name: string, j: nat)
    requires n <= |run|
  {
    && j < n && Takes(run, j, principal, name)
    && (forall k :: j < k < n ==> !Erases(run[k], name))
    && (forall i :: 0 <= i < j && Takes(run, i, principal, name) ==> exists k :: i < k < j && Erases(run[k], name))
  }

  ghost predicate NoTake(run: seq<Event>, n: nat, principal: Uuid, name: string)
    requires n <= |run|
  {
    forall i :: 0 <= i < n && Takes(run, i, principal, name) ==> exists k :: i < k < n && Erases(run[k], name)
  }

  /** The event number of that consumption, if there is one. */
  function Since(run: seq<Event>, n: nat, principal: Uuid, name: string): Option<nat>
    requires n <= |run|
  {
    if n == 0 || Erases(run[n - 1], name) then None
    else if Since(run, n - 1, principal, name).Some? then Since(run, n - 1, principal, name)
    else if Takes(run, n - 1, principal, name) then Some(n - 1)
    else None
  }

  lemma {:induction false} SinceIs(run: seq<Event>, n: nat, principal: Uuid, name: string)
    requires n <= |run|
    ensures match Since(run, n, principal, name)
      case Some(j) => FirstTake(run, n, principal, name, j)
      case None => NoTake(run, n, principal, name)
  {
    hide Takes, Erases;
    if n > 0 {
      SinceIs(run, n - 1, principal, name);
      if Erases(run[n - 1], name) {
        forall i | 0 <= i < n && Takes(run, i, principal, name) ensures exists k :: i < k < n && Erases(run[k], name) {
          TakesIsNotErasing(run, i, principal, name);
        }
      }
    }
  }

  lemma TakesIsNotErasing(run: seq<Event>, i: nat, principal: Uuid, name: string)
    requires i < |run| && Takes(run, i, principal, name)
    ensures !Erases(run[i], name)
  {
  }

  /** The map remembers exactly that consumption. */
  ghost predicate Remembers(run: seq<Event>, n: nat, principal: Uuid, name: string)
    requires n <= |run|
  {
    var b, since := BookAfter(run, n), Since(run, n, principal, name);
    && (since.Some? <==> name in b && principal in b[name].consumed)
    && (since.Some? ==> since.value < n && b[name].consumed[principal] == Time(run[since.value]))
  }

  function Time(e: Event): int {
    if e.Consume? then e.now else 0
  }

  lemma {:induction false} HistoryDecides(run: seq<Event>, n: nat, principal: Uuid, name: string)
    requires FreshIds(run) && n <= |run|
    ensures Remembers(run, n, principal, name)
  {
    hide BookStep, Remembers, BookAfter, StoreAfter, FreshIds, BookOf, Valid;
    if n == 0 {
      NothingRemembered(run, principal, name);
    } else {
      HistoryDecides(run, n - 1, principal, name);
      RunRefines(run, n - 1);
      RemembersNext(run, n, principal, name);
    }
  }

  lemma NothingRemembered(run: seq<Event>, principal: Uuid, name: string)
    ensures Remembers(run, 0, principal, name)
  {
  }

  /** How one event changes what one name holds for one principal. */
  lemma StepConsumed(b: Book, e: Event, principal: Uuid, name: string)
    ensures var (b', answer) := BookStep(b, e);
      var had, has := name in b && principal in b[name].consumed, name in b' && principal in b'[name].consumed;
      var takes := e.Consume? && e.principal == principal && Trim(e.name) == name && answer.outcome.Ok?;
      && (has <==> !Erases(e, name) && (had || takes))
      && (had && has ==> b'[name].consumed[principal] == b[name].consumed[principal])
      && (!had && has ==> b'[name].consumed[principal] == Time(e))
  {
  }

  lemma RemembersNext(run: seq<Event>, n: nat, principal: Uuid, name: string)
    requires 0 < n <= |run| && Remembers(run, n - 1, principal, name)
    requires AnswerAt(run, n - 1) == BookStep(BookAfter(run, n - 1), run[n - 1]).1
    ensures Remembers(run, n, principal, name)
  {
    hide AnswerAt, BookStep, Erases;
    StepConsumed(BookAfter(run, n - 1), run[n - 1], principal, name);
  }

  /**
   What a consumption answers in any run: not found when the name is not live; otherwise Consumed
   exactly when this principal has no consumption since the name was last deleted or reset, and
   else the time of the first one since.
   */
  lemma ConsumeAnswers(run: seq<Event>, n: nat)
    requires FreshIds(run) && n < |run| && run[n].Consume?
    ensures var name, principal, answer := Trim(run[n].name), run[n].principal, AnswerAt(run, n);
      match answer.outcome
      case Err(_) => name !in BookAfter(run, n)
      case Ok(Consumed(at)) => at == run[n].now && NoTake(run, n, principal, name)
      case Ok(AlreadyConsumed(at)) => exists j: nat :: FirstTake(run, n, principal, name, j) && at == run[j].now
  {
    hide AnswerAt, FirstTake, NoTake, BookAfter, Since;
    var name, principal := Trim(run[n].name), run[n].principal;
    RunRefines(run, n);
    HistoryDecides(run, n, principal, name);
    SinceIs(run, n, principal, name);
    if Since(run, n, principal, name).Some? {
      FirstTakeIsConsume(run, n, principal, name, Since(run, n, principal, name).value);
    }
  }

  lemma FirstTakeIsConsume(run: seq<Event>, n: nat, principal: Uuid, name: string, j: nat)
    requires n <= |run| && FirstTake(run, n, principal, name, j)
    ensures j < n && run[j].Consume?
  {
  }

  predicate Defines(e: Event, name: string) {
    e.Upsert? && Trim(e.input.name) == name && Validated(e.input).Ok?
  }

  predicate Removes(e: Event, name: string) {
    e.Delete? && Trim(e.name) == name
  }

  lemma StepLive(b: Book, e: Event, name: string)
    ensures name in BookStep(b, e).0 <==> Defines(e, name) || (name in b && !Removes(e, name))
  {
  }

  ghost predicate LastDefined(run: seq<Event>, n: nat, name: string, j: nat)
    requires n <= |run|
  {
    j < n && Defines(run[j], name) && forall k :: j < k < n ==> !Removes(run[k], name)
  }

  /** A name is live exactly when it was defined and not deleted since. */
  lemma {:induction false} LiveSince(run: seq<Event>, n: nat, name: string)
    requires n <= |run|
    ensures name in BookAfter(run, n) <==> exists j: nat :: LastDefined(run, n, name, j)
  {
    hide BookStep, Defines, Removes;
    if n > 0 {
      LiveSince(run, n - 1, name);
      StepLive(BookAfter(run, n - 1), run[n - 1], name);
      if Defines(run[n - 1], name) {
        assert LastDefined(run, n, name, n - 1);
      } else if name in BookAfter(run, n - 1) && !Removes(run[n - 1], name) {
        var j: nat :| LastDefined(run, n - 1, name, j);
        assert LastDefined(run, n, name, j);
      }
      forall j: nat | LastDefined(run, n, name, j) ensures j == n - 1 || (LastDefined(run, n - 1, name, j) && !Removes(run[n - 1], name)) {
      }
    }
  }

  // ---- the consumed list ----

  datatype Row = Row(name: string, at: int)

  /** The principal's consumption times in name order: strictly increasing names, and exactly the map. */
  ghost predicate IsConsumedList(b: Book, principal: Uuid, rows: seq<Row>) {
    && (forall i, j :: 0 <= i < j < |rows| ==> Sorting.Leq(rows[i].name, rows[j].name) && rows[i].name != rows[j].name)
    && (forall name, at :: Row(name, at) in rows <==> name in b && principal in b[name].consumed && b[name].consumed[principal] == at)
  }

  /** The tours the join finds for the principal. */
  function Joined(s: Store, principal: Uuid): set<Uuid> {
    set k | k in s.consumptions && k.1 == principal && k.0 in s.tours && s.tours[k.0].live :: k.0
  }

  function Names(s: Store): map<Uuid, string> {
    map id | id in s.tours :: s.tours[id].name
  }

  /** The rows read so far, in name order before those still to come. */
  ghost predicate ReadSoFar(s: Store, principal: Uuid, rows: seq<Row>, left: set<Uuid>) {
    && left <= Joined(s, principal) && left <= s.tours.Keys
    && (forall i, j :: 0 <= i < j < |rows| ==> Sorting.Leq(rows[i].name, rows[j].name) && rows[i].name != rows[j].name)
    && (forall i, id :: 0 <= i < |rows| && id in left ==> Sorting.Leq(rows[i].name, s.tours[id].name) && rows[i].name != s.tours[id].name)
    && (forall r :: r in rows <==> exists id :: id in Joined(s, principal) - left && r == RowOf(s, principal, id))
  }

  function RowOf(s: Store, principal: Uuid, id: Uuid): Row {
    if id in s.tours && (id, principal) in s.consumptions then Row(s.tours[id].name, s.consumptions[(id, principal)]) else Row("", 0)
  }

  lemma ReadNext(s: Store, principal: Uuid, rows: seq<Row>, left: set<Uuid>, id: Uuid)
    requires Valid(s) && ReadSoFar(s, principal, rows, left) && id in left
    requires forall x :: x in left ==> Sorting.Leq(s.tours[id].name, s.tours[x].name)
    ensures ReadSoFar(s, principal, rows + [RowOf(s, principal, id)], left - {id})
  {
  }

  lemma ReadAll(s: Store, principal: Uuid, rows: seq<Row>)
    requires Valid(s) && ReadSoFar(s, principal, rows, {})
    ensures IsConsumedList(BookOf(s), principal, rows)
  {
    hide BookOf, TimesOf, Sorting.Leq;
    forall name, at
      ensures Row(name, at) in rows <==>
        name in BookOf(s) && principal in BookOf(s)[name].consumed && BookOf(s)[name].consumed[principal] == at
    {
      EntryIs(s, name);
      if LiveId(s, name).Some? {
        var id := LiveId(s, name).value;
        LiveIdInTours(s, name);
        TimesIs(s.consumptions, id, principal);
        JoinedIs(s, principal, id);
      }
      if Row(name, at) in rows {
        var id :| id in Joined(s, principal) - {} && Row(name, at) == RowOf(s, principal, id);
        LiveIdIs(s, id);
      }
    }
  }

  lemma JoinedIs(s: Store, principal: Uuid, id: Uuid)
    requires LiveId(s, if id in s.tours then s.tours[id].name else "") == Some(id)
    ensures id in s.tours && (id in Joined(s, principal) - {} <==> (id, principal) in s.consumptions)
  {
  }

  /** SELECT .. JOIN .. ORDER BY name: exactly the map's consumption times of the principal. */
  method ConsumedFor(d: TourStore, principal: Uuid) returns (rows: seq<Row>)
    requires d.Fresh()
    ensures IsConsumedList(BookOf(d.Snapshot()), principal, rows)
  {
    var s := d.Snapshot();
    var left := Joined(s, principal);
    rows := [];
    while left != {}
      invariant ReadSoFar(s, principal, rows, left)
      decreases left
    {
      Sorting.StringOrder();
      ghost var least := Sorting.LeastBy(Sorting.Leq, Names(s), left);
      assert exists id :: id in left && forall x :: x in left ==> Sorting.Leq(s.tours[id].name, s.tours[x].name);
      var id :| id in left && forall x :: x in left ==> Sorting.Leq(s.tours[id].name, s.tours[x].name);
      ReadNext(s, principal, rows, left, id);
      rows, left := rows + [RowOf(s, principal, id)], left - {id};
    }
    ReadAll(s, principal, rows);
  }
}
