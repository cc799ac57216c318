/**
 Who wins a race of forks, and what the winner leaves behind.
 */
module ForkRaceOutcome {
  import opened Common
  import opened Schema
  import opened Specificity
  import opened Versioning
  import opened ForkRace
  import opened ForkRaceProofs

  /** The calls of the log that created their page. */
  function Winners(log: History, procs: map<Pid, Proc>): set<Pid> {
    match log
    case Begin => {}
    case Then(before, pid) => Winners(before, procs) + if pid in procs && Won(procs[pid]) then {pid} else {}
  }

  /** The initial rows, untouched. */
  ghost predicate OldKept(init: Tables, t: Tables) {
    && t.websites == init.websites && t.menus.Keys == init.menus.Keys
    && forall id :: id in init.pages ==> id in t.pages && t.pages[id] == init.pages[id] && BlocksOf(t, id) == BlocksOf(init, id)
  }

  /** The page a winner made: the full copy, blocks once, of the generic its key had at the start. */
  ghost predicate Placed(init: Tables, c: Call, t: Tables) {
    var source := ResolveGeneric(init, c.key);
    && source.Some? && c.newId in t.pages
    && t.pages[c.newId] == SpecificCopy(init.pages[source.value], source.value, c.site)
    && BlocksOf(t, c.newId) == BlocksOf(init, source.value)
  }

  ghost predicate PagesAccount(init: Tables, calls: map<Pid, Call>, won: set<Pid>, t: Tables) {
    && won <= calls.Keys
    && (forall p :: p in won ==> Placed(init, calls[p], t))
    && (forall id :: id in t.pages && id !in init.pages ==> exists p :: p in won && calls[p].newId == id)
    && (forall p :: p in calls && p !in won ==> calls[p].newId !in t.blocks)
  }

  /** A live menu of the call's website, bound at the start to the generic of the call's key. */
  predicate Claims(init: Tables, c: Call, m: Uuid)
    requires m in init.menus
  {
    var source := ResolveGeneric(init, c.key);
    init.menus[m].live && init.menus[m].website == c.site && source.Some? && init.menus[m].page == source
  }

  /** Each winner re-pointed exactly its menus, once, and no other menu moved. */
  ghost predicate MenusAccount(init: Tables, calls: map<Pid, Call>, won: set<Pid>, t: Tables) {
    && (forall m, p :: m in init.menus && m in t.menus && p in won && p in calls && Claims(init, calls[p], m) ==>
          t.menus[m] == init.menus[m].(page := Some(calls[p].newId)))
    && (forall m :: m in init.menus && m in t.menus && (forall p :: p in won && p in calls ==> !Claims(init, calls[p], m)) ==>
          t.menus[m] == init.menus[m])
  }

  ghost predicate Account(init: Tables, calls: map<Pid, Call>, won: set<Pid>, t: Tables) {
    OldKept(init, t) && PagesAccount(init, calls, won, t) && MenusAccount(init, calls, won, t)
  }

  lemma GenericsStay(init: Tables, calls: map<Pid, Call>, won: set<Pid>, t: Tables, k: string)
    requires OldKept(init, t) && PagesAccount(init, calls, won, t)
    ensures ResolveGeneric(t, k) == ResolveGeneric(init, k)
  {
    NewRowsAreOwned(init, calls, won, t);
    hide PagesAccount;
    var before, after := KeyIds(init, k, None), KeyIds(t, k, None);
    assert forall id :: id in before ==> id in after;
    assert forall id :: id in after ==> id in before;
    assert after == before;
  }

  lemma NewRowsAreOwned(init: Tables, calls: map<Pid, Call>, won: set<Pid>, t: Tables)
    requires PagesAccount(init, calls, won, t)
    ensures forall id :: id in t.pages && id !in init.pages ==> t.pages[id].website.Some?
  {
    hide ResolveGeneric;
  }

  lemma WinPlaced(init: Tables, c: Call, t: Tables)
    requires OldKept(init, t) && ResolveGeneric(t, c.key) == ResolveGeneric(init, c.key) && c.newId !in t.blocks
    requires Fork(t, c.key, c.site, c.newId).1 == Ok(Created(c.newId))
    ensures var after := Fork(t, c.key, c.site, c.newId).0;
      OldKept(init, after) && Placed(init, c, after)
  {
  }

  lemma PagesAccountNext(init: Tables, calls: map<Pid, Call>, won: set<Pid>, t: Tables, pid: Pid, after: Tables)
    requires Admissible(init, calls) && PagesAccount(init, calls, won, t) && pid in calls && pid !in won
    requires after.pages.Keys == t.pages.Keys + {calls[pid].newId} && after.blocks.Keys == t.blocks.Keys + {calls[pid].newId}
    requires Placed(init, calls[pid], after) && forall p :: p in won ==> Placed(init, calls[p], after)
    ensures PagesAccount(init, calls, won + {pid}, after)
  {
  }

  lemma OthersStayPlaced(init: Tables, calls: map<Pid, Call>, won: set<Pid>, t: Tables, c: Call)
    requires won <= calls.Keys && forall p :: p in won ==> Placed(init, calls[p], t) && calls[p].newId != c.newId
    requires Fork(t, c.key, c.site, c.newId).1 == Ok(Created(c.newId))
    ensures forall p :: p in won ==> Placed(init, calls[p], Fork(t, c.key, c.site, c.newId).0)
  {
  }

  lemma ForkShape(t: Tables, c: Call)
    requires Fork(t, c.key, c.site, c.newId).1 == Ok(Created(c.newId))
    ensures var after := Fork(t, c.key, c.site, c.newId).0;
      && c.newId !in t.pages
      && after.pages.Keys == t.pages.Keys + {c.newId} && after.blocks.Keys == t.blocks.Keys + {c.newId}
  {
  }

  lemma WinPages(init: Tables, calls: map<Pid, Call>, won: set<Pid>, t: Tables, pid: Pid)
    requires Admissible(init, calls) && OldKept(init, t) && PagesAccount(init, calls, won, t) && pid in calls
    requires Fork(t, calls[pid].key, calls[pid].site, calls[pid].newId).1 == Ok(Created(calls[pid].newId))
    ensures var after := Fork(t, calls[pid].key, calls[pid].site, calls[pid].newId).0;
      OldKept(init, after) && PagesAccount(init, calls, won + {pid}, after)
  {
    var c := calls[pid];
    GenericsStay(init, calls, won, t, c.key);
    ForkShape(t, c);
    assert pid !in won;
    WinPlaced(init, c, t);
    OthersStayPlaced(init, calls, won, t, c);
    PagesAccountNext(init, calls, won, t, pid, Fork(t, c.key, c.site, c.newId).0);
  }

  // ---- menus ----

  /** Whether a menu is bound to the generic when the call wins is what it claimed at the start. */
  lemma BoundAsClaimed(init: Tables, calls: map<Pid, Call>, won: set<Pid>, t: Tables, pid: Pid, m: Uuid)
    requires OldKept(init, t) && PagesAccount(init, calls, won, t) && MenusAccount(init, calls, won, t)
    requires pid in calls && m in init.menus && ResolveGeneric(t, calls[pid].key) == ResolveGeneric(init, calls[pid].key)
    requires Fork(t, calls[pid].key, calls[pid].site, calls[pid].newId).1 == Ok(Created(calls[pid].newId))
    ensures ResolveGeneric(t, calls[pid].key).Some? && m in t.menus
    ensures Claims(init, calls[pid], m)
      <==> t.menus[m].live && t.menus[m].website == calls[pid].site && t.menus[m].page == ResolveGeneric(t, calls[pid].key)
    ensures Claims(init, calls[pid], m) ==> t.menus[m] == init.menus[m]
  {
    if p :| p in won && Claims(init, calls[p], m) {
      ClaimsExclude(init, calls, won, t, pid, p, m);
      assert Placed(init, calls[p], t);
      assert t.menus[m] == init.menus[m].(page := Some(calls[p].newId));
      GenericIsOld(init, t, calls[pid].key);
      assert calls[p].newId in KeyIds(t, calls[p].key, Some(calls[p].site));
    }
  }

  lemma GenericIsOld(init: Tables, t: Tables, k: string)
    requires ResolveGeneric(t, k) == ResolveGeneric(init, k)
    ensures ResolveGeneric(t, k).Some? ==> ResolveGeneric(t, k).value in KeyIds(t, k, None)
  {
  }

  lemma WinMenus(init: Tables, calls: map<Pid, Call>, won: set<Pid>, t: Tables, pid: Pid, m: Uuid)
    requires OldKept(init, t) && PagesAccount(init, calls, won, t) && MenusAccount(init, calls, won, t)
    requires pid in calls && m in init.menus && ResolveGeneric(t, calls[pid].key) == ResolveGeneric(init, calls[pid].key)
    requires Fork(t, calls[pid].key, calls[pid].site, calls[pid].newId).1 == Ok(Created(calls[pid].newId))
    ensures Fork(t, calls[pid].key, calls[pid].site, calls[pid].newId).0.menus[m]
      == if Claims(init, calls[pid], m) then init.menus[m].(page := Some(calls[pid].newId)) else t.menus[m]
  {
    hide PagesAccount, MenusAccount, Claims, Fork;
    BoundAsClaimed(init, calls, won, t, pid, m);
    ForkedMenu(t, calls[pid], m);
  }

  /** What a creating fork does to one menu. */
  lemma ForkedMenu(t: Tables, c: Call, m: Uuid)
    requires m in t.menus && Fork(t, c.key, c.site, c.newId).1 == Ok(Created(c.newId))
    ensures m in Fork(t, c.key, c.site, c.newId).0.menus
    ensures Fork(t, c.key, c.site, c.newId).0.menus[m]
      == if t.menus[m].live && t.menus[m].website == c.site && t.menus[m].page == ResolveGeneric(t, c.key)
         then t.menus[m].(page := Some(c.newId)) else t.menus[m]
  {
  }

  lemma ClaimedMenus(init: Tables, calls: map<Pid, Call>, won: set<Pid>, t: Tables, pid: Pid, after: Tables, m: Uuid, p: Pid)
    requires OldKept(init, t) && PagesAccount(init, calls, won, t) && MenusAccount(init, calls, won, t)
    requires pid in calls && ResolveGeneric(t, calls[pid].key) == ResolveGeneric(init, calls[pid].key)
    requires Fork(t, calls[pid].key, calls[pid].site, calls[pid].newId) == (after, Ok(Created(calls[pid].newId)))
    requires m in init.menus && m in after.menus && p in won + {pid} && p in calls && Claims(init, calls[p], m)
    ensures after.menus[m] == init.menus[m].(page := Some(calls[p].newId))
  {
    hide PagesAccount, Fork;
    WinMenus(init, calls, won, t, pid, m);
    if p != pid {
      assert t.menus[m] == init.menus[m].(page := Some(calls[p].newId));
      ClaimsExclude(init, calls, won, t, pid, p, m);
    }
  }

  lemma UnclaimedMenus(init: Tables, calls: map<Pid, Call>, won: set<Pid>, t: Tables, pid: Pid, after: Tables, m: Uuid)
    requires OldKept(init, t) && PagesAccount(init, calls, won, t) && MenusAccount(init, calls, won, t)
    requires pid in calls && ResolveGeneric(t, calls[pid].key) == ResolveGeneric(init, calls[pid].key)
    requires Fork(t, calls[pid].key, calls[pid].site, calls[pid].newId) == (after, Ok(Created(calls[pid].newId)))
    requires m in init.menus && m in after.menus && forall p :: p in won + {pid} && p in calls ==> !Claims(init, calls[p], m)
    ensures after.menus[m] == init.menus[m]
  {
    hide PagesAccount, Fork;
    assert pid in won + {pid};
    WinMenus(init, calls, won, t, pid, m);
    assert forall p :: p in won && p in calls ==> p in won + {pid};
  }

  lemma WinMenusAll(init: Tables, calls: map<Pid, Call>, won: set<Pid>, t: Tables, pid: Pid, after: Tables)
    requires OldKept(init, t) && PagesAccount(init, calls, won, t) && MenusAccount(init, calls, won, t)
    requires pid in calls && ResolveGeneric(t, calls[pid].key) == ResolveGeneric(init, calls[pid].key)
    requires Fork(t, calls[pid].key, calls[pid].site, calls[pid].newId) == (after, Ok(Created(calls[pid].newId)))
    ensures MenusAccount(init, calls, won + {pid}, after)
  {
    hide PagesAccount, Fork, Claims;
    forall m, p | m in init.menus && m in after.menus && p in won + {pid} && p in calls && Claims(init, calls[p], m)
      ensures after.menus[m] == init.menus[m].(page := Some(calls[p].newId))
    {
      ClaimedMenus(init, calls, won, t, pid, after, m, p);
    }
    forall m | m in init.menus && m in after.menus && forall p :: p in won + {pid} && p in calls ==> !Claims(init, calls[p], m)
      ensures after.menus[m] == init.menus[m]
    {
      UnclaimedMenus(init, calls, won, t, pid, after, m);
    }
  }

  /** A menu an earlier winner took is not one the new winner may take. */
  lemma ClaimsExclude(init: Tables, calls: map<Pid, Call>, won: set<Pid>, t: Tables, pid: Pid, p: Pid, m: Uuid)
    requires OldKept(init, t) && PagesAccount(init, calls, won, t) && pid in calls && p in won && p in calls && m in init.menus
    requires Fork(t, calls[pid].key, calls[pid].site, calls[pid].newId).1 == Ok(Created(calls[pid].newId))
    requires Claims(init, calls[p], m)
    ensures !Claims(init, calls[pid], m)
  {
  }

  lemma WinAccount(init: Tables, calls: map<Pid, Call>, won: set<Pid>, t: Tables, pid: Pid, c: Call, after: Tables)
    requires Admissible(init, calls) && Account(init, calls, won, t) && pid in calls && c == calls[pid]
    requires Fork(t, c.key, c.site, c.newId) == (after, Ok(Created(c.newId)))
    ensures Account(init, calls, won + {pid}, after)
  {
    GenericsStay(init, calls, won, t, c.key);
    WinPages(init, calls, won, t, pid);
    WinMenusAll(init, calls, won, t, pid, after);
  }

  ghost predicate Accounted(init: Tables, calls: map<Pid, Call>, log: History, procs: map<Pid, Proc>) {
    Account(init, calls, Winners(log, procs), Serial(init, calls, log))
  }

  lemma WonAccounted(init: Tables, calls: map<Pid, Call>, before: History, pid: Pid, procs: map<Pid, Proc>, c: Call)
    requires Admissible(init, calls) && Accounted(init, calls, before, procs) && pid in calls && c == calls[pid]
    requires pid in procs && Won(procs[pid])
    requires Fork(Serial(init, calls, before), c.key, c.site, c.newId).1 == Ok(Created(c.newId))
    ensures Accounted(init, calls, Then(before, pid), procs)
  {
    var t := Serial(init, calls, before);
    WinAccount(init, calls, Winners(before, procs), t, pid, c, Fork(t, c.key, c.site, c.newId).0);
  }

  lemma ExistingAccounted(init: Tables, calls: map<Pid, Call>, before: History, pid: Pid, procs: map<Pid, Proc>)
    requires Accounted(init, calls, before, procs) && (pid in procs ==> !Won(procs[pid]))
    requires Serial(init, calls, Then(before, pid)) == Serial(init, calls, before)
    ensures Accounted(init, calls, Then(before, pid), procs)
  {
    assert Winners(Then(before, pid), procs) == Winners(before, procs);
  }

  lemma ExistingKeeps(t: Tables, c: Call)
    ensures Fork(t, c.key, c.site, c.newId).1.Ok? && Fork(t, c.key, c.site, c.newId).1.value.Existing? ==>
      Fork(t, c.key, c.site, c.newId).0 == t
  {
  }

  lemma NothingAccounted(init: Tables, calls: map<Pid, Call>, procs: map<Pid, Proc>)
    requires Admissible(init, calls)
    ensures Accounted(init, calls, Begin, procs)
  {
  }

  /** The committed tables of any log, accounted for by its winners. */
  lemma {:induction false} LogAccount(init: Tables, calls: map<Pid, Call>, log: History, procs: map<Pid, Proc>)
    requires Admissible(init, calls) && SerialAnswers(init, calls, log, procs)
    requires forall p :: p in procs && p in calls && Won(procs[p]) ==> procs[p].phase.answer == Created(calls[p].newId)
    ensures Accounted(init, calls, log, procs)
  {
    hide Account, Fork, Admissible, Winners;
    match log
    case Begin => NothingAccounted(init, calls, procs);
    case Then(before, pid) =>
      LogAccount(init, calls, before, procs);
      if Won(procs[pid]) {
        WonAccounted(init, calls, before, pid, procs, calls[pid]);
      } else {
        ExistingKeeps(Serial(init, calls, before), calls[pid]);
        ExistingAccounted(init, calls, before, pid, procs);
      }
  }

  // ---- the outcome ----

  lemma {:induction false} WinnersWon(log: History, procs: map<Pid, Proc>, p: Pid)
    requires p in Winners(log, procs)
    ensures p in procs && Won(procs[p])
  {
    match log
    case Then(before, pid) =>
      if p in Winners(before, procs) {
        WinnersWon(before, procs, p);
      }
  }

  lemma {:induction false} WinnersAll(init: Tables, calls: map<Pid, Call>, s: State, p: Pid)
    requires Admissible(init, calls) && Inv(init, calls, s) && p in s.procs && Won(s.procs[p])
    ensures p in Winners(s.log, s.procs)
  {
    StateAccount(init, calls, s);
    var id := calls[p].newId;
    assert id in KeyIds(s.db, calls[p].key, Some(calls[p].site));
    assert exists q :: q in Winners(s.log, s.procs) && calls[q].newId == id;
  }

  lemma StateAccount(init: Tables, calls: map<Pid, Call>, s: State)
    requires Admissible(init, calls) && Inv(init, calls, s)
    ensures Account(init, calls, Winners(s.log, s.procs), s.db)
  {
    LogAccount(init, calls, s.log, s.procs);
  }

  /** The winner of the slot (key, site), if some committed call of that slot created its page. */
  ghost predicate WinsSlot(calls: map<Pid, Call>, s: State, w: Pid, key: string, site: Uuid) {
    w in calls && w in s.procs && Won(s.procs[w]) && calls[w].key == key && calls[w].site == site
  }

  lemma SlotFilledByWinner(init: Tables, calls: map<Pid, Call>, s: State, key: string, site: Uuid) returns (w: Pid)
    requires Admissible(init, calls) && Inv(init, calls, s)
    requires KeySlot(init, key, Some(site)).None? && KeySlot(s.db, key, Some(site)).Some?
    ensures WinsSlot(calls, s, w, key, site) && calls[w].newId == KeySlot(s.db, key, Some(site)).value
  {
    StateAccount(init, calls, s);
    var id := KeySlot(s.db, key, Some(site)).value;
    assert id !in init.pages by {
      assert id in init.pages ==> id in KeyIds(init, key, Some(site));
    }
    w :| w in Winners(s.log, s.procs) && calls[w].newId == id;
    WinnersWon(s.log, s.procs, w);
    assert Placed(init, calls[w], s.db);
  }

  lemma {:induction false} SlotStays(init: Tables, calls: map<Pid, Call>, s: State, key: string, site: Uuid)
    requires Admissible(init, calls) && Inv(init, calls, s) && KeySlot(init, key, Some(site)).Some?
    ensures KeySlot(s.db, key, Some(site)) == KeySlot(init, key, Some(site))
  {
    StateAccount(init, calls, s);
    SlotHolds(s.db, KeySlot(init, key, Some(site)).value);
  }

  /**
   One slot, any number of calls. If the website had its own page, every committed call answers
   with that page and none creates. If it had none, exactly one committed call created a page,
   and every committed call answers with that one page.
   */
  lemma RaceOutcome(init: Tables, calls: map<Pid, Call>, states: seq<State>, i: nat, p: Pid)
    requires Admissible(init, calls) && IsRun(init, calls, states) && i < |states|
    requires p in calls && p in states[i].procs && states[i].procs[p].phase.Committed?
    ensures var s, key, site, answer := states[i], calls[p].key, calls[p].site, states[i].procs[p].phase.answer;
      match KeySlot(init, key, Some(site))
      case Some(id) => answer == Existing(id)
      case None => exists w :: (
        && WinsSlot(calls, s, w, key, site)
        && (forall v :: WinsSlot(calls, s, v, key, site) ==> v == w)
        && answer == if w == p then Created(calls[w].newId) else Existing(calls[w].newId))
  {
    var s, key, site := states[i], calls[p].key, calls[p].site;
    RaceIsSerial(init, calls, states, i);
    assert ProcOk(s.db, calls[p], s.procs[p]);
    if KeySlot(init, key, Some(site)).Some? {
      SlotStays(init, calls, s, key, site);
      if Won(s.procs[p]) {
        WinnersAll(init, calls, s, p);
        StateAccount(init, calls, s);
      }
    } else {
      var w := SlotFilledByWinner(init, calls, s, key, site);
      forall v | WinsSlot(calls, s, v, key, site) ensures v == w {
        assert ProcOk(s.db, calls[v], s.procs[v]);
      }
    }
  }

  /**
   What the winner leaves behind: its page is the generic's full copy with the generic's blocks
   once, and the menus of its website that were bound to the generic, and no others, are bound to
   its page. Loser or aborted, no other call leaves a trace.
   */
  lemma RaceEffects(init: Tables, calls: map<Pid, Call>, states: seq<State>, i: nat)
    requires Admissible(init, calls) && IsRun(init, calls, states) && i < |states|
    ensures var s := states[i]; var won := set p | p in calls && p in s.procs && Won(s.procs[p]);
      Account(init, calls, won, s.db)
  {
    var s := states[i];
    RaceIsSerial(init, calls, states, i);
    StateAccount(init, calls, s);
    forall p | p in calls && p in s.procs && Won(s.procs[p]) ensures p in Winners(s.log, s.procs) {
      WinnersAll(init, calls, s, p);
    }
    forall p | p in Winners(s.log, s.procs) ensures p in calls && p in s.procs && Won(s.procs[p]) {
      WinnersWon(s.log, s.procs, p);
    }
    assert (set p | p in calls && p in s.procs && Won(s.procs[p])) == Winners(s.log, s.procs);
  }

  // ---- nobody is stuck ----

  /** As long as a transaction is open, some transaction can run its next statement. */
  lemma NoDeadlock(init: Tables, calls: map<Pid, Call>, s: State, p: Pid) returns (q: Pid)
    requires Inv(init, calls, s) && p in s.procs && !Ended(s.procs[p])
    ensures CanRun(s, calls, q)
  {
    q := p;
    if !CanRun(s, calls, p) {
      var row := SpecificCopy(s.db.pages[s.procs[p].generic], s.procs[p].generic, calls[p].site);
      q :| q in s.procs && q != p && s.procs[q].row.Some? && Clash(s.procs[q].row.value, row);
      assert ProcOk(s.db, calls[q], s.procs[q]);
    }
  }

  /** Statements left before a transaction ends, at most. */
  function Remaining(p: Proc): nat {
    match p.phase
    case Resolving => 7
    case Rereading => 2
    case Sourcing => 6
    case Inserting => 5
    case CopyingBlocks => 4
    case Reselecting(_) => 3
    case Repointing(_) => 2
    case Committing(_) => 1
    case Committed(_) => 0
    case Failed(_) => 0
  }

  /** Every step brings the transaction that takes it closer to its end and leaves the others where they are. */
  lemma StepsAreFew(calls: map<Pid, Call>, s: State, s': State, pid: Pid)
    requires StepOf(s, calls, s', pid)
    ensures pid in s.procs && pid in s'.procs && Remaining(s'.procs[pid]) < Remaining(s.procs[pid])
    ensures forall q :: q in s.procs && q != pid ==> q in s'.procs && s'.procs[q] == s.procs[q]
  {
  }

  // ---- why a call fails ----

  /** A statement that ends its transaction says why. */
  lemma StatementFails(db: Tables, c: Call, p: Proc, why: Failure)
    requires !Ended(p) && Statement(db, c, p).phase == Failed(why)
    ensures why.SourceMissing? ==> KeySlot(db, c.key, None).None?
    ensures why.MissingWebsite? ==> c.site !in db.websites
    ensures why.NothingSelected? ==> p.phase.Rereading? || p.phase.Reselecting?
    ensures why.NothingSelected? && p.row.None? ==> KeySlot(db, c.key, Some(c.site)).None?
    ensures !why.Aborted?
  {
    hide CopyLands;
  }

  /** What a failure of a call tells about the tables the race began with. */
  ghost predicate Reason(init: Tables, c: Call, why: Failure) {
    && (why.SourceMissing? ==> KeySlot(init, c.key, None).None?)
    && (why.MissingWebsite? ==> c.site !in init.websites)
    && (why.NothingSelected? ==> KeySlot(init, c.key, Some(c.site)).None? && KeySlot(init, c.key, None).Some?)
  }

  /**
   In every state of every run a call that failed was aborted; or there was no generic; or there was no
   such website; or there was a generic, the website had no page of the key, and none came to be.
   */
  lemma {:induction false} FailuresAre(init: Tables, calls: map<Pid, Call>, states: seq<State>, i: nat, p: Pid)
    requires Admissible(init, calls) && IsRun(init, calls, states) && i < |states|
    requires p in calls && p in states[i].procs && states[i].procs[p].phase.Failed?
    ensures Reason(init, calls[p], states[i].procs[p].phase.failure)
  {
    hide Admissible, Statement, Reason;
    if i > 0 {
      var s, s' := states[i - 1], states[i];
      assert Step(s, calls, s');
      var pid :| StepOf(s, calls, s', pid);
      if p in s.procs && s.procs[p].phase.Failed? && s'.procs[p] == s.procs[p] {
        FailuresAre(init, calls, states, i - 1, p);
      } else {
        FailsNow(init, calls, states, i - 1, s', pid, p);
      }
    }
  }

  /** What no state of a run changes of the tables it began with. */
  lemma StateFacts(init: Tables, calls: map<Pid, Call>, states: seq<State>, i: nat, p: Pid)
    requires Admissible(init, calls) && IsRun(init, calls, states) && i < |states| && p in calls && p in states[i].procs
    ensures var s, c := states[i], calls[p];
      && ProcOk(s.db, c, s.procs[p]) && s.db.websites == init.websites
      && KeySlot(s.db, c.key, None) == KeySlot(init, c.key, None)
      && (KeySlot(init, c.key, Some(c.site)).Some? ==> KeySlot(s.db, c.key, Some(c.site)).Some?)
  {
    var s := states[i];
    RaceIsSerial(init, calls, states, i);
    StateAccount(init, calls, s);
    GenericsStay(init, calls, Winners(s.log, s.procs), s.db, calls[p].key);
    hide Admissible, MenusAccount, PagesAccount, KeySlot;
    if KeySlot(init, calls[p].key, Some(calls[p].site)).Some? {
      SlotStays(init, calls, s, calls[p].key, calls[p].site);
    }
  }

  lemma FailsNow(init: Tables, calls: map<Pid, Call>, states: seq<State>, i: nat, s': State, pid: Pid, p: Pid)
    requires Admissible(init, calls) && IsRun(init, calls, states) && i < |states| && StepOf(states[i], calls, s', pid)
    requires p in calls && p in s'.procs && s'.procs[p].phase.Failed?
    requires !(p in states[i].procs && states[i].procs[p].phase.Failed? && s'.procs[p] == states[i].procs[p])
    ensures Reason(init, calls[p], s'.procs[p].phase.failure)
  {
    hide Admissible, IsRun, Statement, MustWait, CopyLands, KeySlot;
    var s := states[i];
    assert p == pid && p in s.procs && !Ended(s.procs[p]);
    StateFacts(init, calls, states, i, p);
    if s' == Run(s, calls, pid) {
      FailsInRun(init, s.db, calls[p], s.procs[p], s'.procs[p].phase.failure);
    }
  }

  lemma FailsInRun(init: Tables, db: Tables, c: Call, p: Proc, why: Failure)
    requires !Ended(p) && Statement(db, c, p).phase == Failed(why) && PhaseOk(db, c, p) && db.websites == init.websites
    requires KeySlot(db, c.key, None) == KeySlot(init, c.key, None)
    requires KeySlot(init, c.key, Some(c.site)).Some? ==> KeySlot(db, c.key, Some(c.site)).Some?
    ensures Reason(init, c, why)
  {
    StatementFails(db, c, p, why);
    hide KeySlot, CopyLands;
    if why.NothingSelected? && p.row.Some? {
      OwnRowIsFound(db, c, p);
    }
  }

  /** A transaction that has its row finds it again. */
  lemma OwnRowIsFound(db: Tables, c: Call, p: Proc)
    requires PhaseOk(db, c, p) && p.row.Some? && p.phase.Reselecting?
    ensures KeySlot(OwnView(db, c, p), c.key, Some(c.site)).Some?
  {
    OwnRowIsSelected(db, c, p);
  }
}
