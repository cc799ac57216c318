/**
 The concurrent fork: any number of fork calls, for any keys and websites, each a transaction of
 several statements under READ COMMITTED. A statement sees the committed tables and its own
 writes. An insert whose index slot is held by another open transaction waits; the slot is free
 again when that transaction ends. Any open transaction may abort at any point.
 */
module ForkRace {
  import opened Common
  import opened Schema
  import opened Specificity
  import opened Versioning

  type Pid = nat

  /** One call of the fork verb, with the uuid it will draw. */
  datatype Call = Call(key: string, site: Uuid, newId: Uuid)

  datatype Failure = SourceMissing | NothingSelected | MissingWebsite | Aborted

  /** The next statement of a transaction, or how it ended. */
  datatype Phase =
    | Resolving
    | Rereading
    | Sourcing
    | Inserting
    | CopyingBlocks
    | Reselecting(created: bool)
    | Repointing(id: Uuid)
    | Committing(outcome: ForkOutcome)
    | Committed(answer: ForkOutcome)
    | Failed(failure: Failure)

  /** A transaction: where it is, and its uncommitted writes. */
  datatype Proc = Proc(phase: Phase, generic: Uuid, row: Option<Page>, blocks: multiset<Block>, menus: set<Uuid>)

  /** Committed calls, latest last. */
  datatype History = Begin | Then(before: History, pid: Pid)

  datatype State = State(db: Tables, procs: map<Pid, Proc>, log: History)

  const OPENED := Proc(Resolving, 0, None, multiset{}, {})

  predicate Ended(p: Proc) {
    p.phase.Committed? || p.phase.Failed?
  }

  function Fail(p: Proc, why: Failure): Proc {
    OPENED.(phase := Failed(why))
  }

  /** What the statements of a transaction read: the committed pages and its own row. */
  function OwnView(db: Tables, c: Call, p: Proc): Tables {
    if p.row.Some? then db.(pages := db.pages[c.newId := p.row.value]) else db
  }

  /** The live menus of the website that are bound to the generic. */
  function BoundMenus(db: Tables, site: Uuid, generic: Uuid): set<Uuid> {
    set m | m in db.menus && db.menus[m].website == site && db.menus[m].page == Some(generic) && db.menus[m].live
  }

  /** COMMIT: the uncommitted writes become visible. */
  function Apply(db: Tables, c: Call, p: Proc): Tables {
    if p.row.None? then db
    else db.(pages := db.pages[c.newId := p.row.value],
             blocks := db.blocks[c.newId := BlocksOf(db, c.newId) + p.blocks],
             menus := map m | m in db.menus :: if m in p.menus then db.menus[m].(page := Some(c.newId)) else db.menus[m])
  }

  /** Another open transaction holds an index slot this row needs. */
  predicate MustWait(s: State, pid: Pid, row: Page) {
    exists q :: q in s.procs && q != pid && s.procs[q].row.Some? && Clash(s.procs[q].row.value, row)
  }

  /** The transaction after its next statement; the insert is only asked when it need not wait. */
  function Statement(db: Tables, c: Call, p: Proc): Proc {
    match p.phase
    case Resolving => p.(phase := if ResolveSpecific(db, c.key, c.site).Specific? then Rereading else Sourcing)
    case Rereading =>
      var found := ResolveSpecificEntity(db, c.key, c.site);
      if found.None? then Fail(p, NothingSelected) else p.(phase := Committing(Existing(found.value)))
    case Sourcing =>
      var source := ResolveGeneric(db, c.key);
      if source.None? then Fail(p, SourceMissing) else p.(phase := Inserting, generic := source.value)
    case Inserting =>
      if !CopyLands(db, p.generic, c.site, c.newId) then p.(phase := Reselecting(false))
      else if c.site !in db.websites then Fail(p, MissingWebsite)
      else p.(phase := CopyingBlocks, row := Some(SpecificCopy(db.pages[p.generic], p.generic, c.site)))
    case CopyingBlocks => p.(phase := Reselecting(true), blocks := BlocksOf(db, p.generic))
    case Reselecting(created) =>
      var found := ResolveSpecificEntity(OwnView(db, c, p), c.key, c.site);
      if found.None? then Fail(p, NothingSelected)
      else if created then p.(phase := Repointing(found.value))
      else p.(phase := Committing(Existing(found.value)))
    case Repointing(id) => p.(phase := Committing(Created(id)), menus := BoundMenus(db, c.site, p.generic))
    case Committing(outcome) => OPENED.(phase := Committed(outcome), generic := p.generic)
    case Committed(_) => p
    case Failed(_) => p
  }

  predicate CanRun(s: State, calls: map<Pid, Call>, pid: Pid) {
    && pid in s.procs && pid in calls && !Ended(s.procs[pid])
    && (s.procs[pid].phase.Inserting? && CopyLands(s.db, s.procs[pid].generic, calls[pid].site, calls[pid].newId) ==>
          !MustWait(s, pid, SpecificCopy(s.db.pages[s.procs[pid].generic], s.procs[pid].generic, calls[pid].site)))
  }

  /** Transaction `pid` runs its next statement. */
  function Run(s: State, calls: map<Pid, Call>, pid: Pid): State
    requires pid in s.procs && pid in calls
  {
    var c, p := calls[pid], s.procs[pid];
    State(if p.phase.Committing? then Apply(s.db, c, p) else s.db,
          s.procs[pid := Statement(s.db, c, p)],
          if p.phase.Committing? then Then(s.log, pid) else s.log)
  }

  /** Transaction `pid` aborts. */
  function Abort(s: State, pid: Pid): State
    requires pid in s.procs
  {
    s.(procs := s.procs[pid := Fail(s.procs[pid], Aborted)])
  }

  ghost predicate Step(s: State, calls: map<Pid, Call>, s': State) {
    exists pid :: StepOf(s, calls, s', pid)
  }

  ghost predicate StepOf(s: State, calls: map<Pid, Call>, s': State, pid: Pid) {
    || (CanRun(s, calls, pid) && s' == Run(s, calls, pid))
    || (pid in s.procs && !Ended(s.procs[pid]) && s' == Abort(s, pid))
  }

  function Initial(init: Tables, calls: map<Pid, Call>): State {
    State(init, map pid | pid in calls :: OPENED, Begin)
  }

  /** A run of the system: it starts with every call open, and each state follows by a step. */
  ghost predicate IsRun(init: Tables, calls: map<Pid, Call>, states: seq<State>) {
    && |states| > 0 && states[0] == Initial(init, calls)
    && forall i :: 0 <= i < |states| - 1 ==> Step(states[i], calls, states[i + 1])
  }

  /** The uuid of a call is used nowhere yet. */
  ghost predicate Unused(db: Tables, id: Uuid) {
    id !in db.pages && id !in db.blocks && forall m :: m in db.menus ==> db.menus[m].page != Some(id)
  }

  /** The tables obey their indexes, and the calls draw distinct new uuids. */
  ghost predicate Admissible(init: Tables, calls: map<Pid, Call>) {
    && Indexed(init)
    && (forall p :: p in calls ==> Unused(init, calls[p].newId))
    && (forall p, q :: p in calls && q in calls && p != q ==> calls[p].newId != calls[q].newId)
  }

  // ---- the serial reference ----

  /** The committed calls run one after the other, each as one indivisible fork. */
  function Serial(init: Tables, calls: map<Pid, Call>, log: History): Tables {
    match log
    case Begin => init
    case Then(before, pid) =>
      var t := Serial(init, calls, before);
      if pid in calls then Fork(t, calls[pid].key, calls[pid].site, calls[pid].newId).0 else t
  }

  /** Every call of the log answered what it answers when run alone after those before it. */
  ghost predicate SerialAnswers(init: Tables, calls: map<Pid, Call>, log: History, procs: map<Pid, Proc>) {
    match log
    case Begin => true
    case Then(before, pid) =>
      && SerialAnswers(init, calls, before, procs)
      && pid in calls && pid in procs && procs[pid].phase.Committed?
      && Fork(Serial(init, calls, before), calls[pid].key, calls[pid].site, calls[pid].newId).1 == Ok(procs[pid].phase.answer)
  }

  // ---- the invariant ----

  /** The transaction has inserted its row: it alone may fill the slot, and the row is the generic's copy. */
  ghost predicate Holds(db: Tables, c: Call, p: Proc) {
    && ResolveGeneric(db, c.key) == Some(p.generic)
    && CopyLands(db, p.generic, c.site, c.newId)
    && c.site in db.websites
    && p.row == Some(SpecificCopy(db.pages[p.generic], p.generic, c.site))
  }

  ghost predicate PhaseOk(db: Tables, c: Call, p: Proc) {
    match p.phase
    case Resolving => p.row.None?
    case Rereading => p.row.None? && KeySlot(db, c.key, Some(c.site)).Some?
    case Sourcing => p.row.None?
    case Inserting => p.row.None? && ResolveGeneric(db, c.key) == Some(p.generic)
    case CopyingBlocks => Holds(db, c, p)
    case Reselecting(created) =>
      if created then Holds(db, c, p) && p.blocks == BlocksOf(db, p.generic)
      else p.row.None? && ResolveGeneric(db, c.key) == Some(p.generic)
    case Repointing(id) => Holds(db, c, p) && p.blocks == BlocksOf(db, p.generic) && id == c.newId
    case Committing(outcome) =>
      if outcome.Created?
      then Holds(db, c, p) && p.blocks == BlocksOf(db, p.generic) && outcome.id == c.newId
        && p.menus == BoundMenus(db, c.site, p.generic)
      else p.row.None? && KeySlot(db, c.key, Some(c.site)) == Some(outcome.id)
    case Committed(answer) => p.row.None? && KeySlot(db, c.key, Some(c.site)) == Some(answer.id)
    case Failed(_) => p.row.None?
  }

  /** The call has put its row into the committed tables. */
  predicate Won(p: Proc) {
    p.phase.Committed? && p.phase.answer.Created?
  }

  ghost predicate ProcOk(db: Tables, c: Call, p: Proc) {
    && PhaseOk(db, c, p)
    && (if Won(p) then p.phase.answer.id == c.newId else Unused(db, c.newId))
  }
}
