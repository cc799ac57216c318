/**
 The tour store: definitions under a live-unique name, soft-deleted, and one consumption fact per
 (tour, principal). Together the two tables behave as one map from live name to definition and
 consumption times.
 */
module Tours {
  import opened Common
  import opened Text

  const TOUR_NAME_MAX := 120
  const TOUR_DISPLAY_NAME_MAX := 120
  const TOUR_MESSAGE_MAX := 500
  const TOUR_STEPS_MAX_BYTES := 256 * 1024

  /** A JSON value: whether it is an array, and its serialization. */
  datatype Steps = Steps(isArray: bool, text: string)

  datatype Definition = Definition(displayName: string, message: Option<string>, steps: string)

  datatype Tour = Tour(name: string, definition: Definition, live: bool)

  datatype TourError = InvalidInput | TourNotFound

  datatype Outcome = Consumed(at: int) | AlreadyConsumed(at: int)

  datatype Input = Input(name: string, displayName: string, message: Option<string>, steps: Steps)

  /** The two tables. */
  datatype Store = Store(tours: map<Uuid, Tour>, consumptions: map<(Uuid, Uuid), int>)

  // ---- the verbs on the tables ----

  function LiveIds(s: Store, name: string): set<Uuid> {
    set id | id in s.tours && s.tours[id].live && s.tours[id].name == name
  }

  function LiveId(s: Store, name: string): Option<Uuid> {
    First(LiveIds(s, name))
  }

  function NonEmptyMessage(message: Option<string>): Option<string> {
    if message.Some? && Trim(message.value) != "" then Some(Trim(message.value)) else None
  }

  /** The trimmed, bounded definition, or a refusal. */
  function Validated(input: Input): Result<Definition, TourError> {
    var message := NonEmptyMessage(input.message);
    if Trim(input.name) == "" || ByteLength(Trim(input.name)) > TOUR_NAME_MAX then Err(InvalidInput)
    else if ByteLength(Trim(input.displayName)) > TOUR_DISPLAY_NAME_MAX then Err(InvalidInput)
    else if message.Some? && ByteLength(message.value) > TOUR_MESSAGE_MAX then Err(InvalidInput)
    else if !input.steps.isArray || ByteLength(input.steps.text) > TOUR_STEPS_MAX_BYTES then Err(InvalidInput)
    else Ok(Definition(Trim(input.displayName), message, input.steps.text))
  }

  function UpsertTour(s: Store, input: Input, newId: Uuid): (Store, Result<(), TourError>) {
    var d := Validated(input);
    if d.Err? then (s, Err(d.error))
    else
      var id := if LiveId(s, Trim(input.name)).Some? then LiveId(s, Trim(input.name)).value else newId;
      (s.(tours := s.tours[id := Tour(Trim(input.name), d.value, true)]), Ok(()))
  }

  function DeleteTour(s: Store, name: string): (Store, Result<(), TourError>) {
    var id := LiveId(s, Trim(name));
    if id.None? then (s, Err(TourNotFound))
    else (s.(tours := s.tours[id.value := s.tours[id.value].(live := false)]), Ok(()))
  }

  function ConsumeTour(s: Store, principal: Uuid, name: string, now: int): (Store, Result<Outcome, TourError>) {
    var id := LiveId(s, Trim(name));
    if id.None? then (s, Err(TourNotFound))
    else if (id.value, principal) in s.consumptions then (s, Ok(AlreadyConsumed(s.consumptions[(id.value, principal)])))
    else (s.(consumptions := s.consumptions[(id.value, principal) := now]), Ok(Consumed(now)))
  }

  /** The consumption facts of one tour. */
  function FactsOf(consumptions: map<(Uuid, Uuid), int>, id: Uuid): set<(Uuid, Uuid)> {
    set k | k in consumptions && k.0 == id
  }

  function ResetTour(s: Store, name: string): (Store, Result<nat, TourError>) {
    var id := LiveId(s, Trim(name));
    if id.None? then (s, Err(TourNotFound))
    else
      var facts := FactsOf(s.consumptions, id.value);
      (s.(consumptions := s.consumptions - facts), Ok(|facts|))
  }

  // ---- what an upsert accepts and stores ----

  /** Within the bounds, after trimming; a message of spaces is no message. */
  predicate InBounds(input: Input) {
    && Trim(input.name) != "" && ByteLength(Trim(input.name)) <= 120 && ByteLength(Trim(input.displayName)) <= 120
    && (input.message.Some? && Trim(input.message.value) != "" ==> ByteLength(Trim(input.message.value)) <= 500)
    && input.steps.isArray && ByteLength(input.steps.text) <= 262144
  }

  /**
   An upsert is accepted exactly within the bounds, and a refusal writes nothing. An accepted one
   stores the trimmed columns in the live row of the name, or in a new one, and touches no other row.
   */
  lemma UpsertStores(s: Store, input: Input, newId: Uuid)
    ensures var (after, r) := UpsertTour(s, input, newId);
      && (r.Ok? <==> InBounds(input)) && (r.Err? ==> r == Err(InvalidInput) && after == s)
      && (r.Ok? ==>
            var id := if LiveId(s, Trim(input.name)).Some? then LiveId(s, Trim(input.name)).value else newId;
            && id in after.tours && after == s.(tours := s.tours[id := after.tours[id]])
            && var tour := after.tours[id];
               && tour.live && tour.name == Trim(input.name) && tour.definition.displayName == Trim(input.displayName)
               && tour.definition.steps == input.steps.text
               && tour.definition.message
                  == if input.message.Some? && Trim(input.message.value) != "" then Some(Trim(input.message.value)) else None)
  {
    hide Trim, ByteLength, LiveId;
  }

  /** The other verbs: not found without a live row of the trimmed name, and then nothing is written. */
  lemma VerbsFind(s: Store, name: string, principal: Uuid, now: int)
    ensures LiveId(s, Trim(name)).None? ==>
      && DeleteTour(s, name) == (s, Err(TourNotFound)) && ResetTour(s, name) == (s, Err(TourNotFound))
      && ConsumeTour(s, principal, name, now) == (s, Err(TourNotFound))
    ensures LiveId(s, Trim(name)).Some? ==> DeleteTour(s, name).1.Ok? && ResetTour(s, name).1.Ok? && ConsumeTour(s, principal, name, now).1.Ok?
  {
    hide LiveId, Trim;
  }

  /** A delete takes the live row out and keeps its facts; a reset keeps the row and drops exactly its facts, and counts them. */
  lemma VerbsWrite(s: Store, name: string, id: Uuid, k: (Uuid, Uuid))
    requires LiveId(s, Trim(name)) == Some(id)
    ensures id in s.tours
    ensures DeleteTour(s, name).0 == s.(tours := s.tours[id := s.tours[id].(live := false)])
    ensures var (after, r) := ResetTour(s, name);
      && after.tours == s.tours && r == Ok(|set f | f in s.consumptions && f.0 == id|)
      && (k in after.consumptions <==> k in s.consumptions && k.0 != id)
      && (k in after.consumptions ==> after.consumptions[k] == s.consumptions[k])
  {
    assert id in LiveIds(s, Trim(name));
    hide LiveId, Trim;
  }

  /** A consumption writes one fact, of this tour, principal and time, unless there was one, which it reports. */
  lemma ConsumeWrites(s: Store, principal: Uuid, name: string, now: int, id: Uuid)
    requires LiveId(s, Trim(name)) == Some(id)
    ensures var (after, r) := ConsumeTour(s, principal, name, now);
      if (id, principal) in s.consumptions then after == s && r == Ok(AlreadyConsumed(s.consumptions[(id, principal)]))
      else after == s.(consumptions := s.consumptions[(id, principal) := now]) && r == Ok(Consumed(now))
  {
    hide LiveId, Trim;
  }

  // ---- the one map it stands for ----

  datatype Entry = Entry(definition: Definition, consumed: map<Uuid, int>)

  type Book = map<string, Entry>

  function Principals(consumptions: map<(Uuid, Uuid), int>, id: Uuid): set<Uuid> {
    set k | k in FactsOf(consumptions, id) :: k.1
  }

  function TimesOf(consumptions: map<(Uuid, Uuid), int>, id: Uuid): map<Uuid, int> {
    map p | p in Principals(consumptions, id) :: consumptions[(id, p)]
  }

  function LiveNames(s: Store): set<string> {
    set id | id in s.tours && s.tours[id].live :: s.tours[id].name
  }

  function BookOf(s: Store): Book {
    map name | name in LiveNames(s) && LiveId(s, name).Some? ::
      Entry(s.tours[LiveId(s, name).value].definition, TimesOf(s.consumptions, LiveId(s, name).value))
  }

  /** The live-name index, and the foreign key of the facts. */
  ghost predicate Valid(s: Store) {
    && (forall i, j :: i in s.tours && j in s.tours && s.tours[i].live && s.tours[j].live && i != j ==>
          s.tours[i].name != s.tours[j].name)
    && (forall k :: k in s.consumptions ==> k.0 in s.tours)
  }

  /** An id neither table uses. */
  ghost predicate Unused(s: Store, id: Uuid) {
    id !in s.tours
  }

  // ---- the verbs on the map ----

  function BookUpsert(b: Book, input: Input): (Book, Result<(), TourError>) {
    var d := Validated(input);
    var name := Trim(input.name);
    if d.Err? then (b, Err(d.error))
    else (b[name := Entry(d.value, if name in b then b[name].consumed else map[])], Ok(()))
  }

  function BookDelete(b: Book, name: string): (Book, Result<(), TourError>) {
    if Trim(name) in b then (b - {Trim(name)}, Ok(())) else (b, Err(TourNotFound))
  }

  function BookConsume(b: Book, principal: Uuid, name: string, now: int): (Book, Result<Outcome, TourError>) {
    if Trim(name) !in b then (b, Err(TourNotFound))
    else
      var e := b[Trim(name)];
      if principal in e.consumed then (b, Ok(AlreadyConsumed(e.consumed[principal])))
      else (b[Trim(name) := e.(consumed := e.consumed[principal := now])], Ok(Consumed(now)))
  }

  function BookReset(b: Book, name: string): (Book, Result<nat, TourError>) {
    if Trim(name) !in b then (b, Err(TourNotFound))
    else (b[Trim(name) := b[Trim(name)].(consumed := map[])], Ok(|b[Trim(name)].consumed|))
  }

  // ---- the refinement ----

  lemma LiveIdIs(s: Store, id: Uuid)
    requires Valid(s) && id in s.tours && s.tours[id].live
    ensures LiveId(s, s.tours[id].name) == Some(id) && s.tours[id].name in LiveNames(s)
  {
    assert id in LiveIds(s, s.tours[id].name);
  }

  /** The entry of a name: present exactly when some live row carries it. */
  lemma EntryIs(s: Store, name: string)
    ensures name in BookOf(s) <==> LiveId(s, name).Some?
    ensures name in BookOf(s) ==> (
      var id := LiveId(s, name).value;
      BookOf(s)[name] == Entry(s.tours[id].definition, TimesOf(s.consumptions, id)))
  {
  }

  lemma TimesIs(consumptions: map<(Uuid, Uuid), int>, id: Uuid, p: Uuid)
    ensures p in TimesOf(consumptions, id) <==> (id, p) in consumptions
    ensures p in TimesOf(consumptions, id) ==> TimesOf(consumptions, id)[p] == consumptions[(id, p)]
  {
  }

  lemma SameTimes(c: map<(Uuid, Uuid), int>, c': map<(Uuid, Uuid), int>, id: Uuid)
    requires forall p :: ((id, p) in c <==> (id, p) in c') && ((id, p) in c ==> c[(id, p)] == c'[(id, p)])
    ensures TimesOf(c, id) == TimesOf(c', id)
  {
  }

  lemma {:induction false} CountFacts(c: map<(Uuid, Uuid), int>, id: Uuid)
    ensures |FactsOf(c, id)| == |TimesOf(c, id)|
  {
    SecondsAreAsMany(FactsOf(c, id), id);
    assert TimesOf(c, id).Keys == Principals(c, id);
  }

  lemma {:induction false} SecondsAreAsMany(facts: set<(Uuid, Uuid)>, id: Uuid)
    requires forall k :: k in facts ==> k.0 == id
    ensures |facts| == |set k | k in facts :: k.1|
  {
    if facts != {} {
      var k :| k in facts;
      SecondsAreAsMany(facts - {k}, id);
      var seconds, fewer := (set x | x in facts :: x.1), (set x | x in facts - {k} :: x.1);
      assert k.1 !in fewer;
      forall p | p in seconds ensures p in fewer + {k.1} {
        var x :| x in facts && x.1 == p;
        assert x == k || x in facts - {k};
      }
      assert seconds == fewer + {k.1};
    }
  }

  lemma UpsertRefines(s: Store, input: Input, newId: Uuid)
    requires Valid(s) && Unused(s, newId)
    ensures var (after, answer) := UpsertTour(s, input, newId);
      Valid(after) && (BookOf(after), answer) == BookUpsert(BookOf(s), input)
  {
    hide BookOf, LiveId, TimesOf;
    var (after, answer) := UpsertTour(s, input, newId);
    var (book, _) := BookUpsert(BookOf(s), input);
    if Validated(input).Ok? {
      var mine := Trim(input.name);
      UpsertSlots(s, input, newId, mine);
      UpsertValid(s, input, newId);
      forall name ensures (name in BookOf(after) <==> name in book) && (name in book ==> BookOf(after)[name] == book[name]) {
        EntryIs(s, name);
        EntryIs(after, name);
        UpsertSlots(s, input, newId, name);
      }
      assert BookOf(after) == book;
    }
  }

  lemma UpsertValid(s: Store, input: Input, newId: Uuid)
    requires Valid(s) && Unused(s, newId)
    ensures Valid(UpsertTour(s, input, newId).0)
  {
    var id := LiveId(s, Trim(input.name));
    assert forall i :: i in s.tours && s.tours[i].live && s.tours[i].name == Trim(input.name) ==> i in LiveIds(s, Trim(input.name));
    if id.Some? {
      assert id.value in LiveIds(s, Trim(input.name));
    }
  }

  /** The name is carried by the same row, unchanged. */
  ghost predicate SameSlot(s: Store, after: Store, name: string) {
    && LiveId(after, name) == LiveId(s, name)
    && (LiveId(s, name).Some? ==>
          LiveId(s, name).value in s.tours && LiveId(s, name).value in after.tours
          && after.tours[LiveId(s, name).value] == s.tours[LiveId(s, name).value])
  }

  /** The name is carried by its old row or by the new one, with the definition. */
  ghost predicate Defined(s: Store, after: Store, name: string, d: Definition, newId: Uuid) {
    var id := if LiveId(s, name).Some? then LiveId(s, name).value else newId;
    && LiveId(after, name) == Some(id) && id in after.tours && after.tours[id].definition == d
    && (LiveId(s, name).None? ==> TimesOf(after.consumptions, newId) == map[])
  }

  lemma UpsertSlots(s: Store, input: Input, newId: Uuid, name: string)
    requires Valid(s) && Unused(s, newId) && Validated(input).Ok?
    ensures name != Trim(input.name) ==> SameSlot(s, UpsertTour(s, input, newId).0, name)
    ensures name == Trim(input.name) ==> Defined(s, UpsertTour(s, input, newId).0, name, Validated(input).value, newId)
  {
    var after := UpsertTour(s, input, newId).0;
    var mine := Trim(input.name);
    var id := if LiveId(s, mine).Some? then LiveId(s, mine).value else newId;
    assert LiveId(s, mine).Some? ==> id in LiveIds(s, mine);
    assert after.tours == s.tours[id := Tour(mine, Validated(input).value, true)];
    if name == mine {
      assert LiveIds(after, name) == {id} by {
        assert forall i :: i in LiveIds(s, name) ==> i in LiveIds(s, mine);
        assert LiveId(s, mine).None? ==> LiveIds(s, mine) == {};
      }
      NoFacts(s, newId);
    } else {
      assert LiveIds(after, name) == LiveIds(s, name);
    }
  }

  lemma NoFacts(s: Store, id: Uuid)
    requires Valid(s) && Unused(s, id)
    ensures TimesOf(s.consumptions, id) == map[]
  {
    assert FactsOf(s.consumptions, id) == {};
    assert Principals(s.consumptions, id) == {};
  }

  lemma DeleteRefines(s: Store, name: string)
    requires Valid(s)
    ensures var (after, answer) := DeleteTour(s, name);
      Valid(after) && (BookOf(after), answer) == BookDelete(BookOf(s), name)
  {
    var (after, answer) := DeleteTour(s, name);
    var mine := Trim(name);
    EntryIs(s, mine);
    if LiveId(s, mine).Some? {
      var id := LiveId(s, mine).value;
      assert id in LiveIds(s, mine);
      forall other ensures LiveIds(after, other) == if other == mine then {} else LiveIds(s, other) {
        assert forall i :: i in LiveIds(s, mine) ==> i == id;
      }
      BookWithout(s, after, mine, id);
    }
  }

  lemma BookWithout(s: Store, after: Store, mine: string, id: Uuid)
    requires forall other :: LiveIds(after, other) == if other == mine then {} else LiveIds(s, other)
    requires id in LiveIds(s, mine) && after == s.(tours := s.tours[id := s.tours[id].(live := false)])
    ensures BookOf(after) == BookOf(s) - {mine}
  {
    hide BookOf, LiveIds, TimesOf;
    forall name
      ensures (name in BookOf(after) <==> name in BookOf(s) - {mine})
      ensures name in BookOf(after) ==> BookOf(after)[name] == BookOf(s)[name]
    {
      EntryIs(s, name);
      EntryIs(after, name);
      if name != mine {
        NamedById(s, mine, id, name);
      }
    }
  }

  lemma NamedById(s: Store, mine: string, id: Uuid, name: string)
    requires id in LiveIds(s, mine) && name != mine
    ensures LiveId(s, name) != Some(id)
  {
  }

  lemma ConsumeRefines(s: Store, principal: Uuid, name: string, now: int)
    requires Valid(s)
    ensures var (after, answer) := ConsumeTour(s, principal, name, now);
      Valid(after) && (BookOf(after), answer) == BookConsume(BookOf(s), principal, name, now)
  {
    hide BookOf, LiveIds, TimesOf;
    var mine := Trim(name);
    EntryIs(s, mine);
    if LiveId(s, mine).Some? {
      var id := LiveId(s, mine).value;
      LiveIdInTours(s, mine);
      TimesIs(s.consumptions, id, principal);
      var after := s.(consumptions := s.consumptions[(id, principal) := now]);
      FactsChange(s, after, mine, id, TimesOf(s.consumptions, id)[principal := now]) by {
        TimesGain(s.consumptions, id, principal, now);
        forall other | other != id ensures TimesOf(after.consumptions, other) == TimesOf(s.consumptions, other) {
          SameTimes(s.consumptions, after.consumptions, other);
        }
      }
    }
  }

  lemma LiveIdInTours(s: Store, name: string)
    requires LiveId(s, name).Some?
    ensures LiveId(s, name).value in s.tours && s.tours[LiveId(s, name).value].name == name
  {
    assert LiveId(s, name).value in LiveIds(s, name);
  }

  lemma TimesGain(c: map<(Uuid, Uuid), int>, id: Uuid, p: Uuid, now: int)
    ensures TimesOf(c[(id, p) := now], id) == TimesOf(c, id)[p := now]
  {
    var c' := c[(id, p) := now];
    forall q
      ensures (q in TimesOf(c', id) <==> q in TimesOf(c, id)[p := now])
      ensures q in TimesOf(c', id) ==> TimesOf(c', id)[q] == TimesOf(c, id)[p := now][q]
    {
      TimesIs(c, id, q);
      TimesIs(c', id, q);
    }
  }

  /** Changing the facts of one live tour changes one entry. */
  lemma FactsChange(s: Store, after: Store, mine: string, id: Uuid, times: map<Uuid, int>)
    requires LiveId(s, mine) == Some(id) && after == s.(consumptions := after.consumptions)
    requires TimesOf(after.consumptions, id) == times
    requires forall other :: other != id ==> TimesOf(after.consumptions, other) == TimesOf(s.consumptions, other)
    ensures mine in BookOf(s) && BookOf(after) == BookOf(s)[mine := BookOf(s)[mine].(consumed := times)]
  {
    hide BookOf, TimesOf, LiveIds;
    EntryIs(s, mine);
    LiveIdInTours(s, mine);
    var book := BookOf(s)[mine := BookOf(s)[mine].(consumed := times)];
    forall name
      ensures (name in BookOf(after) <==> name in book)
      ensures name in book ==> BookOf(after)[name] == book[name]
    {
      EntryIs(s, name);
      EntryIs(after, name);
      SameLive(s, after, name);
      if LiveId(s, name).Some? {
        LiveIdInTours(s, name);
      }
    }
  }

  lemma SameLive(s: Store, after: Store, name: string)
    requires after.tours == s.tours
    ensures LiveId(after, name) == LiveId(s, name)
  {
    assert LiveIds(after, name) == LiveIds(s, name);
  }

  lemma ResetRefines(s: Store, name: string)
    requires Valid(s)
    ensures var (after, answer) := ResetTour(s, name);
      Valid(after) && (BookOf(after), answer) == BookReset(BookOf(s), name)
  {
    hide BookOf, LiveIds, TimesOf;
    var mine := Trim(name);
    EntryIs(s, mine);
    if LiveId(s, mine).Some? {
      var id := LiveId(s, mine).value;
      var after := ResetTour(s, name).0;
      CountFacts(s.consumptions, id);
      FactsChange(s, after, mine, id, map[]) by {
        TimesGone(s.consumptions, id);
        forall other | other != id ensures TimesOf(after.consumptions, other) == TimesOf(s.consumptions, other) {
          SameTimes(s.consumptions, after.consumptions, other);
        }
      }
    }
  }

  lemma TimesGone(c: map<(Uuid, Uuid), int>, id: Uuid)
    ensures TimesOf(c - FactsOf(c, id), id) == map[]
  {
    assert FactsOf(c - FactsOf(c, id), id) == {};
    assert Principals(c - FactsOf(c, id), id) == {};
  }

  lemma OthersKeepValid(s: Store, principal: Uuid, name: string, now: int)
    requires Valid(s)
    ensures Valid(DeleteTour(s, name).0) && Valid(ConsumeTour(s, principal, name, now).0) && Valid(ResetTour(s, name).0)
  {
    if LiveId(s, Trim(name)).Some? {
      LiveIdInTours(s, Trim(name));
    }
  }

  // ---- the transactions ----

  class TourStore {
    var tours: map<Uuid, Tour>
    var consumptions: map<(Uuid, Uuid), int>
    var nextId: Uuid

    function Snapshot(): Store
      reads this
    {
      Store(tours, consumptions)
    }

    ghost predicate Fresh()
      reads this
    {
      Valid(Snapshot()) && forall id :: id in tours ==> id < nextId
    }

    /** INSERT .. ON CONFLICT (name) DO UPDATE, over the live rows. */
    method Upsert(input: Input) returns (r: Result<(), TourError>)
      requires Fresh()
      modifies this
      ensures Fresh() && (Snapshot(), r) == UpsertTour(old(Snapshot()), input, old(nextId))
    {
      UpsertKeepsFresh(Snapshot(), input, nextId);
      var name := Trim(input.name);
      if name == "" || ByteLength(name) > TOUR_NAME_MAX {
        return Err(InvalidInput);
      }
      var displayName := Trim(input.displayName);
      if ByteLength(displayName) > TOUR_DISPLAY_NAME_MAX {
        return Err(InvalidInput);
      }
      var message := NonEmptyMessage(input.message);
      if message.Some? && ByteLength(message.value) > TOUR_MESSAGE_MAX {
        return Err(InvalidInput);
      }
      if !input.steps.isArray || ByteLength(input.steps.text) > TOUR_STEPS_MAX_BYTES {
        return Err(InvalidInput);
      }
      var newId := nextId;
      nextId := nextId + 1;
      var holder := LiveId(Snapshot(), name);
      var id := if holder.Some? then holder.value else newId;
      tours := tours[id := Tour(name, Definition(displayName, message, input.steps.text), true)];
      return Ok(());
    }

    method Delete(name: string) returns (r: Result<(), TourError>)
      requires Fresh()
      modifies this`tours
      ensures Fresh() && (Snapshot(), r) == DeleteTour(old(Snapshot()), name)
    {
      OthersKeepValid(Snapshot(), 0, name, 0);
      var id := LiveId(Snapshot(), Trim(name));
      if id.None? {
        return Err(TourNotFound);
      }
      LiveIdInTours(Snapshot(), Trim(name));
      tours := tours[id.value := tours[id.value].(live := false)];
      return Ok(());
    }

    method Consume(principal: Uuid, name: string, now: int) returns (r: Result<Outcome, TourError>)
      requires Fresh()
      modifies this`consumptions
      ensures Fresh() && (Snapshot(), r) == ConsumeTour(old(Snapshot()), principal, name, now)
    {
      OthersKeepValid(Snapshot(), principal, name, now);
      var id := LiveId(Snapshot(), Trim(name));
      if id.None? {
        return Err(TourNotFound);
      }
      var pair := (id.value, principal);
      if pair !in consumptions {
        consumptions := consumptions[pair := now];
        return Ok(Consumed(now));
      }
      return Ok(AlreadyConsumed(consumptions[pair]));
    }

    method Reset(name: string) returns (r: Result<nat, TourError>)
      requires Fresh()
      modifies this`consumptions
      ensures Fresh() && (Snapshot(), r) == ResetTour(old(Snapshot()), name)
    {
      OthersKeepValid(Snapshot(), 0, name, 0);
      var id := LiveId(Snapshot(), Trim(name));
      if id.None? {
        return Err(TourNotFound);
      }
      var facts := FactsOf(consumptions, id.value);
      consumptions := consumptions - facts;
      return Ok(|facts|);
    }
  }

  lemma UpsertKeepsFresh(s: Store, input: Input, newId: Uuid)
    requires Valid(s) && forall id :: id in s.tours ==> id < newId
    ensures var after := UpsertTour(s, input, newId).0;
      Valid(after) && forall id :: id in after.tours ==> id < newId + 1
  {
    UpsertValid(s, input, newId);
    if LiveId(s, Trim(input.name)).Some? {
      LiveIdInTours(s, Trim(input.name));
    }
  }
}
