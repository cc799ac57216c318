/**
 The race is settled: every reachable state equals a serial run of the committed forks in commit
 order, one call wins each slot, and nobody is ever stuck.
 */
module ForkRaceProofs {
  import opened Common
  import opened Schema
  import opened Specificity
  import opened Versioning
  import opened ForkProofs
  import opened ForkRace

  // ---- one transaction ----

  lemma OwnRowIsSelected(db: Tables, c: Call, p: Proc)
    requires Holds(db, c, p)
    ensures KeySlot(OwnView(db, c, p), c.key, Some(c.site)) == Some(c.newId)
  {
    assert KeyIds(OwnView(db, c, p), c.key, Some(c.site)) == {c.newId};
  }

  lemma StatementKeepsOk(db: Tables, c: Call, p: Proc)
    requires ProcOk(db, c, p) && !p.phase.Committing?
    ensures ProcOk(db, c, Statement(db, c, p))
  {
    hide KeyIds;
    if p.phase.Reselecting? && p.phase.created {
      OwnRowIsSelected(db, c, p);
    }
  }

  /** The commit of a fork is one indivisible serial fork of the tables it meets. */
  lemma CommitIsFork(db: Tables, c: Call, p: Proc)
    requires ProcOk(db, c, p) && p.phase.Committing?
    ensures Fork(db, c.key, c.site, c.newId) == (Apply(db, c, p), Ok(p.phase.outcome))
  {
    if p.phase.outcome.Created? {
      var copied := WithCopy(db, p.generic, c.site, c.newId);
      assert Apply(db, c, p).menus == Repointed(db.menus, c.site, p.generic, c.newId);
      assert Apply(db, c, p) == copied.(menus := Repointed(copied.menus, c.site, p.generic, c.newId));
    }
  }

  lemma CommitKeepsOk(db: Tables, c: Call, p: Proc)
    requires ProcOk(db, c, p) && p.phase.Committing?
    ensures ProcOk(Apply(db, c, p), c, Statement(db, c, p))
  {
    CommitIsFork(db, c, p);
    ForkAnswers(db, c.key, c.site, c.newId);
  }

  // ---- the other transactions ----

  /** What a winning commit does to slots, generics, blocks and menus as another call sees them. */
  lemma WinIsLocal(db: Tables, c: Call, p: Proc, k: string, site: Option<Uuid>)
    requires ProcOk(db, c, p) && p.phase.Committing? && p.phase.outcome.Created?
    ensures KeySlot(Apply(db, c, p), k, site) == if k == c.key && site == Some(c.site) then Some(c.newId) else KeySlot(db, k, site)
  {
    var copied := WithCopy(db, p.generic, c.site, c.newId);
    SlotsAfterCopy(db, p.generic, c.site, c.newId, k, "", site);
    assert KeyIds(Apply(db, c, p), k, site) == KeyIds(copied, k, site);
  }

  lemma HolderUndisturbed(db: Tables, c: Call, p: Proc, d: Call, q: Proc)
    requires ProcOk(db, c, p) && p.phase.Committing? && p.phase.outcome.Created?
    requires Holds(db, d, q) && c.newId != d.newId && !Clash(q.row.value, p.row.value)
    ensures var after := Apply(db, c, p);
      && Holds(after, d, q)
      && BlocksOf(after, q.generic) == BlocksOf(db, q.generic)
      && BoundMenus(after, d.site, q.generic) == BoundMenus(db, d.site, q.generic)
  {
    WinIsLocal(db, c, p, d.key, None);
    assert c.newId != q.generic;
    assert d.site != c.site || q.generic != p.generic;
  }

  lemma OtherUndisturbed(db: Tables, c: Call, p: Proc, d: Call, q: Proc)
    requires ProcOk(db, c, p) && p.phase.Committing? && p.phase.outcome.Created?
    requires ProcOk(db, d, q) && c.newId != d.newId && (q.row.Some? ==> !Clash(q.row.value, p.row.value))
    ensures ProcOk(Apply(db, c, p), d, q)
  {
    assert KeySlot(db, c.key, Some(c.site)).None? by {
      CommitIsFork(db, c, p);
    }
    WinIsLocal(db, c, p, d.key, None);
    WinIsLocal(db, c, p, d.key, Some(d.site));
    if q.row.Some? {
      HolderUndisturbed(db, c, p, d, q);
    }
  }

  // ---- the whole system ----

  ghost predicate AllOk(calls: map<Pid, Call>, s: State) {
    && s.procs.Keys == calls.Keys
    && (forall p :: p in calls ==> ProcOk(s.db, calls[p], s.procs[p]))
    && (forall p, q :: p in calls && q in calls && p != q ==> calls[p].newId != calls[q].newId)
  }

  /** No two open transactions hold the same index slot. */
  ghost predicate Exclusive(s: State) {
    forall p, q :: p in s.procs && q in s.procs && p != q && s.procs[p].row.Some? && s.procs[q].row.Some? ==>
      !Clash(s.procs[p].row.value, s.procs[q].row.value)
  }

  ghost predicate Inv(init: Tables, calls: map<Pid, Call>, s: State) {
    && AllOk(calls, s) && Exclusive(s) && Indexed(s.db)
    && s.db == Serial(init, calls, s.log)
    && SerialAnswers(init, calls, s.log, s.procs)
  }

  lemma InitialInv(init: Tables, calls: map<Pid, Call>)
    requires Admissible(init, calls)
    ensures Inv(init, calls, Initial(init, calls))
  {
  }

  lemma RunKeepsAllOk(calls: map<Pid, Call>, s: State, pid: Pid)
    requires AllOk(calls, s) && Exclusive(s) && CanRun(s, calls, pid)
    ensures AllOk(calls, Run(s, calls, pid))
  {
    var c, p, s' := calls[pid], s.procs[pid], Run(s, calls, pid);
    forall q | q in calls ensures ProcOk(s'.db, calls[q], s'.procs[q]) {
      if p.phase.Committing? {
        if q == pid {
          CommitKeepsOk(s.db, c, p);
        } else if p.phase.outcome.Created? {
          OtherUndisturbed(s.db, c, p, calls[q], s.procs[q]);
        }
      } else if q == pid {
        StatementKeepsOk(s.db, c, p);
      }
    }
  }

  lemma RunKeepsExclusive(calls: map<Pid, Call>, s: State, pid: Pid)
    requires AllOk(calls, s) && Exclusive(s) && CanRun(s, calls, pid)
    ensures Exclusive(Run(s, calls, pid))
  {
    var p, s' := s.procs[pid], Run(s, calls, pid);
    var p' := s'.procs[pid];
    if p'.row.Some? {
      forall q | q in s.procs && q != pid && s.procs[q].row.Some?
        ensures !Clash(p'.row.value, s.procs[q].row.value) && !Clash(s.procs[q].row.value, p'.row.value)
      {
        if p.row.Some? {
          assert p'.row == p.row;
        } else {
          assert !MustWait(s, pid, p'.row.value);
        }
      }
    }
  }

  /** Ended calls stay as they are, so the answers of the log stand. */
  lemma {:induction false} AnswersStand(init: Tables, calls: map<Pid, Call>, log: History, procs: map<Pid, Proc>, pid: Pid, p: Proc)
    requires SerialAnswers(init, calls, log, procs) && pid in procs && !procs[pid].phase.Committed?
    ensures SerialAnswers(init, calls, log, procs[pid := p])
  {
    match log
    case Begin =>
    case Then(before, last) => AnswersStand(init, calls, before, procs, pid, p);
  }

  lemma RunKeepsInv(init: Tables, calls: map<Pid, Call>, s: State, pid: Pid)
    requires Inv(init, calls, s) && CanRun(s, calls, pid)
    ensures Inv(init, calls, Run(s, calls, pid))
  {
    RunKeepsAllOk(calls, s, pid);
    RunKeepsExclusive(calls, s, pid);
    AnswersStand(init, calls, s.log, s.procs, pid, Statement(s.db, calls[pid], s.procs[pid]));
    if s.procs[pid].phase.Committing? {
      CommitIsFork(s.db, calls[pid], s.procs[pid]);
      ForkKeepsIndexes(s.db, calls[pid].key, calls[pid].site, calls[pid].newId);
    }
  }

  lemma AbortKeepsInv(init: Tables, calls: map<Pid, Call>, s: State, pid: Pid)
    requires Inv(init, calls, s) && pid in s.procs && !Ended(s.procs[pid])
    ensures Inv(init, calls, Abort(s, pid))
  {
    AnswersStand(init, calls, s.log, s.procs, pid, Fail(s.procs[pid], Aborted));
    hide SerialAnswers, Serial, Indexed;
    AbortKeepsAllOk(calls, s, pid);
    AbortKeepsExclusive(s, pid);
  }

  lemma AbortKeepsAllOk(calls: map<Pid, Call>, s: State, pid: Pid)
    requires AllOk(calls, s) && pid in s.procs && !Ended(s.procs[pid])
    ensures AllOk(calls, Abort(s, pid))
  {
    hide Unused, Holds, KeySlot;
    forall q | q in calls ensures ProcOk(s.db, calls[q], Abort(s, pid).procs[q]) {
      assert ProcOk(s.db, calls[q], s.procs[q]);
    }
  }

  lemma AbortKeepsExclusive(s: State, pid: Pid)
    requires Exclusive(s) && pid in s.procs
    ensures Exclusive(Abort(s, pid))
  {
  }

  /**
   In every state of every run, the committed tables and the committed answers are those of the
   committed calls run alone, one after the other, in the order they committed; and the unique
   indexes hold, so no website ever has two live pages for one key.
   */
  lemma {:induction false} RaceIsSerial(init: Tables, calls: map<Pid, Call>, states: seq<State>, i: nat)
    requires Admissible(init, calls) && IsRun(init, calls, states) && i < |states|
    ensures Inv(init, calls, states[i])
  {
    if i == 0 {
      InitialInv(init, calls);
    } else {
      RaceIsSerial(init, calls, states, i - 1);
      var s, s' := states[i - 1], states[i];
      assert Step(s, calls, s');
      var pid :| StepOf(s, calls, s', pid);
      if CanRun(s, calls, pid) && s' == Run(s, calls, pid) {
        RunKeepsInv(init, calls, s, pid);
      } else {
        AbortKeepsInv(init, calls, s, pid);
      }
    }
  }
}
