/** What holds in every interleaving of the steps of Transactions.dfy. */
module TransactionSafety {
  import opened Options
  import opened Transactions
  import Seqs

  // ------------------------------------------------- what a run has done

  /** The statements whose locked section on a session ended in the first `n` steps, in that order. */
  function Statements(events: seq<Event>, sid: Sid, n: nat): seq<Stmt>
    requires n <= |events|
  {
    if n == 0 then []
    else
      var before, e := Statements(events, sid, n - 1), events[n - 1];
      if e.ExecStore? && e.sid == sid then before + [e.stmt] else before
  }

  predicate Publishes(e: Event, sid: Sid) { e.CommitPublish? && e.sid == sid }

  predicate Drops(e: Event, sid: Sid) { (e.Rollback? || e.Cleanup? || e.CommitFail?) && e.sid == sid }

  predicate Published(events: seq<Event>, sid: Sid, n: nat)
    requires n <= |events|
  {
    exists i :: 0 <= i < n && Publishes(events[i], sid)
  }

  predicate Dropped(events: seq<Event>, sid: Sid, n: nat)
    requires n <= |events|
  {
    exists i :: 0 <= i < n && Drops(events[i], sid)
  }

  // ------------------------------------------------ mutual exclusion

  /** A call that holds its session's mutex. */
  predicate Holds(pc: Pc) {
    pc.ExecHolds? || pc.ExecRan? || pc.CommitHolds? || pc.CommitSaved?
  }

  predicate Commits(pc: Pc, sid: Sid) {
    (pc.CommitFound? || pc.CommitHolds? || pc.CommitSaved?) && pc.sid == sid
  }

  /** Calls name sessions that exist, and a call holding a mutex is the one the mutex says. */
  ghost predicate HoldersOk(s: State) {
    && s.live <= s.txns.Keys
    && (forall call :: call in s.pcs && s.pcs[call].BeginHolds? <==> s.mutex == Some(call))
    && (forall call :: call in s.pcs && !s.pcs[call].BeginHolds? ==> s.pcs[call].sid in s.txns)
    && (forall call :: call in s.pcs && Holds(s.pcs[call]) ==> s.txns[s.pcs[call].sid].holder == Some(call))
  }

  /** What a call has read under a transaction's mutex is still so. */
  ghost predicate ReadsOk(sem: Sem, s: State)
    requires HoldersOk(s)
  {
    && (forall call :: call in s.pcs && s.pcs[call].ExecRan? ==>
          var pc := s.pcs[call]; var t := s.txns[pc.sid]; pc.outcome == Execute(sem, t.db, t.content, pc.stmt))
    && (forall call :: call in s.pcs && s.pcs[call].CommitSaved? ==>
          s.pcs[call].final == s.txns[s.pcs[call].sid].content)
  }

  ghost predicate LocksOk(sem: Sem, s: State) {
    HoldersOk(s) && ReadsOk(sem, s)
  }

  /** At most one call works on a transaction's content at a time. */
  lemma {:induction false} MutualExclusion(sem: Sem, states: seq<State>, events: seq<Event>, i: nat, a: Call, b: Call)
    requires IsRun(sem, states, events) && i < |states|
    requires var pcs := states[i].pcs;
      a in pcs && b in pcs && Holds(pcs[a]) && Holds(pcs[b]) && pcs[a].sid == pcs[b].sid
    ensures a == b
  {
    LocksInEveryState(sem, states, events, i);
  }

  lemma {:induction false} BeginKeepsHolders(sem: Sem, s: State, e: Event)
    requires HoldersOk(s) && Enabled(s, e) && (e.BeginLoad? || e.BeginInsert?)
    ensures HoldersOk(Apply(sem, s, e))
  {
  }

  lemma {:induction false} ExecKeepsHolders(sem: Sem, s: State, e: Event)
    requires HoldersOk(s) && Enabled(s, e) && (e.ExecLookup? || e.ExecLock? || e.ExecRun? || e.ExecStore?)
    ensures HoldersOk(Apply(sem, s, e))
  {
  }

  lemma {:induction false} CommitKeepsHolders(sem: Sem, s: State, e: Event)
    requires HoldersOk(s) && Enabled(s, e)
    requires e.CommitLookup? || e.CommitLock? || e.CommitSave? || e.CommitFail? || e.CommitPublish?
    ensures HoldersOk(Apply(sem, s, e))
  {
  }

  /** The other steps touch no session, no mutex and no call; they may end a session. */
  lemma {:induction false} StepKeepsHolders(sem: Sem, s: State, e: Event)
    requires HoldersOk(s) && Enabled(s, e)
    ensures HoldersOk(Apply(sem, s, e))
  {
    if e.BeginLoad? || e.BeginInsert? {
      BeginKeepsHolders(sem, s, e);
    } else if e.ExecLookup? || e.ExecLock? || e.ExecRun? || e.ExecStore? {
      ExecKeepsHolders(sem, s, e);
    } else if e.CommitLookup? || e.CommitLock? || e.CommitSave? || e.CommitFail? || e.CommitPublish? {
      CommitKeepsHolders(sem, s, e);
    } else {
      var s' := Apply(sem, s, e);
      assert s'.txns == s.txns && s'.pcs == s.pcs && s'.mutex == s.mutex && s'.live <= s.live;
    }
  }

  lemma {:induction false} StepKeepsReads(sem: Sem, s: State, e: Event)
    requires LocksOk(sem, s) && Enabled(s, e) && HoldersOk(Apply(sem, s, e))
    ensures ReadsOk(sem, Apply(sem, s, e))
  {
    var s' := Apply(sem, s, e);
    forall call | call in s'.pcs && (s'.pcs[call].ExecRan? || s'.pcs[call].CommitSaved?)
      ensures s'.pcs[call].ExecRan? ==>
        var pc := s'.pcs[call]; var t := s'.txns[pc.sid]; pc.outcome == Execute(sem, t.db, t.content, pc.stmt)
      ensures s'.pcs[call].CommitSaved? ==> s'.pcs[call].final == s'.txns[s'.pcs[call].sid].content
    {
      var sid := s'.pcs[call].sid;
      if call in s.pcs && s'.pcs[call] == s.pcs[call] {
        assert s.txns[sid].holder == Some(call);
        assert s'.txns[sid].content == s.txns[sid].content && s'.txns[sid].db == s.txns[sid].db;
      }
    }
  }

  lemma {:induction false} LocksInEveryState(sem: Sem, states: seq<State>, events: seq<Event>, i: nat)
    requires IsRun(sem, states, events) && i < |states|
    ensures LocksOk(sem, states[i])
  {
    if i > 0 {
      LocksInEveryState(sem, states, events, i - 1);
      assert StepAt(sem, states, events, i - 1);
      StepKeepsHolders(sem, states[i - 1], events[i - 1]);
      StepKeepsReads(sem, states[i - 1], events[i - 1]);
    }
  }

  // -------------------------------------------------- one step, locally

  /** Sessions are created by BEGIN only, keep their database, and change content only as a statement is stored. */
  lemma {:induction false} StepOnSession(sem: Sem, s: State, e: Event, sid: Sid)
    requires LocksOk(sem, s) && Enabled(s, e)
    ensures var s' := Apply(sem, s, e);
      && (sid in s.txns ==> sid in s'.txns)
      && (sid in s.txns ==> s'.txns[sid].db == s.txns[sid].db)
      && (sid in s.txns ==>
            var t := s.txns[sid];
            s'.txns[sid].content ==
            if e.ExecStore? && e.sid == sid then After(sem, t.db, t.content, e.stmt) else t.content)
      && (sid !in s.txns && sid in s'.txns ==>
            e.BeginInsert? && e.sid == sid && s'.txns[sid] == Txn(s.pcs[e.call].db, s.pcs[e.call].loaded, None))
      && (sid !in s.txns ==> !(e.ExecStore? && e.sid == sid) && !Publishes(e, sid) && !Drops(e, sid))
  {
  }

  /** The step is the last of a call that is committing the session. */
  predicate Ends(s: State, s': State, e: Event, sid: Sid) {
    (e.CommitPublish? || e.CommitFail?) && e.call in s.pcs && Commits(s.pcs[e.call], sid) && e.call !in s'.pcs
  }

  /** Which sessions are live after one step. */
  lemma {:induction false} StepOnLive(sem: Sem, s: State, e: Event)
    requires LocksOk(sem, s) && Enabled(s, e)
    ensures var s' := Apply(sem, s, e);
      && (forall sid :: sid in s'.live ==> sid in s.live || (e.BeginInsert? && e.sid == sid && sid !in s.txns))
      && (forall sid :: Drops(e, sid) ==> (sid in s.live && sid !in s'.live) || Ends(s, s', e, sid))
      && (e.CommitLookup? ==> e.call !in s.pcs && e.sid in s.live && e.sid !in s'.live)
      && (forall sid :: Publishes(e, sid) ==> Ends(s, s', e, sid))
  {
  }

  /** Which calls are committing after one step. */
  lemma {:induction false} StepOnCommits(sem: Sem, s: State, e: Event, call: Call, sid: Sid)
    requires LocksOk(sem, s) && Enabled(s, e)
    ensures var s' := Apply(sem, s, e);
      call in s'.pcs && Commits(s'.pcs[call], sid) ==>
        sid in s.txns && ((call in s.pcs && Commits(s.pcs[call], sid)) || e == CommitLookup(call, sid))
  {
  }

  /** A call is holding a loaded content because it has just loaded it, or was holding it before. */
  lemma {:induction false} StepOnBegin(sem: Sem, s: State, e: Event, call: Call)
    requires Enabled(s, e)
    ensures var s' := Apply(sem, s, e);
      call in s'.pcs && s'.pcs[call].BeginHolds? ==>
        var db := s'.pcs[call].db;
        if e.BeginLoad? && e.call == call then e.db == db && db in s.head && s'.pcs[call].loaded == s.head[db]
        else call in s.pcs && s.pcs[call] == s'.pcs[call]
  {
  }

  /** A database's queue, worker and head in one step. */
  lemma {:induction false} StepOnQueue(sem: Sem, s: State, e: Event, db: Db)
    requires Enabled(s, e)
    ensures var s' := Apply(sem, s, e);
      && QueueOf(s', db) == (if e.Enqueue? && e.db == db then QueueOf(s, db) + [e.job]
                             else if e.WorkTake? && e.db == db then QueueOf(s, db)[1..] else QueueOf(s, db))
      && (e.WorkTake? && e.db == db ==>
            WorkerOf(s, db).Idle? && QueueOf(s, db) != [] && WorkerOf(s', db) == Took(QueueOf(s, db)[0]))
      && (e.WorkLoad? && e.db == db ==>
            db in s.head && WorkerOf(s, db).Took? && WorkerOf(s', db) == Loaded(WorkerOf(s, db).job, s.head[db]))
      && (e.WorkDone? && e.db == db ==>
            !WorkerOf(s, db).Idle? && WorkerOf(s, db).job == e.job && WorkerOf(s', db).Idle?)
      && (e.WorkDone? && e.db == db && db in s.head ==> WorkerOf(s, db).Loaded?)
      && (!((e.WorkTake? || e.WorkLoad? || e.WorkDone?) && e.db == db) ==> WorkerOf(s', db) == WorkerOf(s, db))
  {
  }

  lemma {:induction false} StepOnHead(sem: Sem, s: State, e: Event, db: Db)
    requires Enabled(s, e) && db in s.head
    ensures var s' := Apply(sem, s, e);
      && db in s'.head
      && (!e.WorkDone? && !e.CommitPublish? ==> s'.head == s.head)
      && (e.WorkDone? && e.db != db ==> s'.head[db] == s.head[db])
      && (e.WorkDone? && e.db == db ==>
            WorkerOf(s, db).Loaded? &&
            var outcome := Execute(sem, db, WorkerOf(s, db).content, e.job);
            s'.head[db] == if e.job.Write? && outcome.Done? then outcome.content else s.head[db])
      && (e.CommitPublish? && s.txns[e.sid].db != db ==> s'.head[db] == s.head[db])
  {
  }

  // ---------------------------------------------- what a commit publishes

  /** Steps `j` and `k` are one BEGIN: the load and the insertion of the session. */
  ghost predicate Begins(events: seq<Event>, sid: Sid, j: nat, k: nat) {
    && j < k < |events| && events[j].BeginLoad? && events[k] == BeginInsert(events[j].call, sid)
    && forall m :: j < m < k ==> !(events[m].BeginLoad? && events[m].call == events[j].call)
  }

  lemma {:induction false} BeginInRun(sem: Sem, states: seq<State>, events: seq<Event>, i: nat, call: Call)
    requires IsRun(sem, states, events) && i < |events|
    ensures call in states[i + 1].pcs && states[i + 1].pcs[call].BeginHolds? ==>
      var e, pc := events[i], states[i + 1].pcs[call];
      if e.BeginLoad? && e.call == call
      then e.db == pc.db && pc.db in states[i].head && pc.loaded == states[i].head[pc.db]
      else call in states[i].pcs && states[i].pcs[call] == pc
  {
    assert StepAt(sem, states, events, i);
    StepOnBegin(sem, states[i], events[i], call);
  }

  /** The content a BEGIN is holding is the head it loaded. */
  lemma {:induction false} BeginOrigin(
    sem: Sem, states: seq<State>, events: seq<Event>, i: nat, call: Call) returns (j: nat)
    requires IsRun(sem, states, events) && i < |states| && call in states[i].pcs && states[i].pcs[call].BeginHolds?
    ensures j < i && events[j] == BeginLoad(call, states[i].pcs[call].db)
    ensures states[i].pcs[call].db in states[j].head
    ensures states[j].head[states[i].pcs[call].db] == states[i].pcs[call].loaded
    ensures forall m :: j < m < i ==> !(events[m].BeginLoad? && events[m].call == call)
  {
    BeginInRun(sem, states, events, i - 1, call);
    if events[i - 1] == BeginLoad(call, states[i].pcs[call].db) {
      j := i - 1;
    } else {
      j := BeginOrigin(sem, states, events, i - 1, call);
    }
  }

  lemma {:induction false} NothingBeforeBegin(sem: Sem, states: seq<State>, events: seq<Event>, i: nat, sid: Sid)
    requires IsRun(sem, states, events) && i < |states| && sid !in states[i].txns
    ensures Statements(events, sid, i) == [] && !Published(events, sid, i) && !Dropped(events, sid, i)
  {
    if i > 0 {
      SessionInRun(sem, states, events, i - 1, sid);
      NothingBeforeBegin(sem, states, events, i - 1, sid);
      NothingMore(events, sid, i - 1);
    }
  }

  /** One step of a run, for one session. */
  lemma {:induction false} SessionInRun(sem: Sem, states: seq<State>, events: seq<Event>, i: nat, sid: Sid)
    requires IsRun(sem, states, events) && i < |events|
    ensures sid in states[i].txns ==> sid in states[i + 1].txns && states[i + 1].txns[sid].db == states[i].txns[sid].db
    ensures sid in states[i].txns ==>
      var t, e := states[i].txns[sid], events[i];
      states[i + 1].txns[sid].content ==
      if e.ExecStore? && e.sid == sid then After(sem, t.db, t.content, e.stmt) else t.content
    ensures sid !in states[i].txns && sid in states[i + 1].txns ==>
      var e := events[i];
      && e.BeginInsert? && e.sid == sid && e.call in states[i].pcs && states[i].pcs[e.call].BeginHolds?
      && states[i + 1].txns[sid] == Txn(states[i].pcs[e.call].db, states[i].pcs[e.call].loaded, None)
    ensures sid !in states[i].txns ==>
      !(events[i].ExecStore? && events[i].sid == sid) && !Publishes(events[i], sid) && !Drops(events[i], sid)
  {
    LocksInEveryState(sem, states, events, i);
    assert StepAt(sem, states, events, i);
    StepOnSession(sem, states[i], events[i], sid);
  }

  lemma {:induction false} NothingMore(events: seq<Event>, sid: Sid, i: nat)
    requires i < |events| && Statements(events, sid, i) == [] && !Published(events, sid, i) && !Dropped(events, sid, i)
    requires !(events[i].ExecStore? && events[i].sid == sid) && !Publishes(events[i], sid) && !Drops(events[i], sid)
    ensures Statements(events, sid, i + 1) == [] && !Published(events, sid, i + 1) && !Dropped(events, sid, i + 1)
  {
    HistoryGrows(events, sid, i);
  }

  /** One more statement, if the step stores one. */
  lemma {:induction false} FoldGrows(sem: Sem, db: Db, c: Content, events: seq<Event>, sid: Sid, i: nat)
    requires i < |events|
    ensures var e := events[i]; var before := Fold(sem, db, c, Statements(events, sid, i));
      Fold(sem, db, c, Statements(events, sid, i + 1)) ==
      if e.ExecStore? && e.sid == sid then After(sem, db, before, e.stmt) else before
  {
    if events[i].ExecStore? { FoldSnoc(sem, db, c, Statements(events, sid, i), events[i].stmt); }
  }

  /** A session's content is the head its BEGIN loaded, with its finished statements applied in order. */
  lemma {:induction false} ContentIsFold(
    sem: Sem, states: seq<State>, events: seq<Event>, i: nat, sid: Sid) returns (j: nat, k: nat)
    requires IsRun(sem, states, events) && i < |states| && sid in states[i].txns
    ensures k < i && Begins(events, sid, j, k)
    ensures var t := states[i].txns[sid];
      && events[j].db == t.db && t.db in states[j].head
      && t.content == Fold(sem, t.db, states[j].head[t.db], Statements(events, sid, i))
  {
    SessionInRun(sem, states, events, i - 1, sid);
    var db := states[i].txns[sid].db;
    if sid !in states[i - 1].txns {
      j := BeginOrigin(sem, states, events, i - 1, events[i - 1].call);
      k := i - 1;
      NothingBeforeBegin(sem, states, events, i - 1, sid);
    } else {
      j, k := ContentIsFold(sem, states, events, i - 1, sid);
    }
    FoldGrows(sem, db, states[j].head[db], events, sid, i - 1);
  }

  /** COMMIT makes the head the BEGIN snapshot folded with exactly the statements whose locked section came before. */
  lemma {:induction false} CommitPublishesFold(
    sem: Sem, states: seq<State>, events: seq<Event>, c: nat, sid: Sid) returns (j: nat, k: nat)
    requires IsRun(sem, states, events) && c < |events| && Publishes(events[c], sid)
    ensures k < c && Begins(events, sid, j, k)
    ensures var db := events[j].db;
      && db in states[j].head
      && states[c + 1].head == states[c].head[db := Fold(sem, db, states[j].head[db], Statements(events, sid, c))]
  {
    assert StepAt(sem, states, events, c);
    LocksInEveryState(sem, states, events, c);
    j, k := ContentIsFold(sem, states, events, c, sid);
  }

  /** The reply a statement gets is that of running it on the BEGIN snapshot after the session's earlier statements. */
  lemma {:induction false} RepliesFollowTheFold(
    sem: Sem, states: seq<State>, events: seq<Event>, i: nat, sid: Sid) returns (j: nat, k: nat)
    requires IsRun(sem, states, events) && i < |events| && events[i].ExecStore? && events[i].sid == sid
    ensures k < i && Begins(events, sid, j, k)
    ensures var e := events[i]; var db := events[j].db;
      && db in states[j].head && e.call in states[i].pcs && states[i].pcs[e.call].ExecRan?
      && states[i].pcs[e.call].outcome
         == Execute(sem, db, Fold(sem, db, states[j].head[db], Statements(events, sid, i)), e.stmt)
      && Replies(sem, db, states[j].head[db], Statements(events, sid, i + 1)) ==
           Replies(sem, db, states[j].head[db], Statements(events, sid, i)) + [ReplyOf(states[i].pcs[e.call].outcome)]
  {
    LocksInEveryState(sem, states, events, i);
    assert StepAt(sem, states, events, i);
    j, k := ContentIsFold(sem, states, events, i, sid);
    var before := Statements(events, sid, i);
    assert (before + [events[i].stmt])[..|before|] == before;
  }

  /**
   A reply is that of the statement run on the head BEGIN loaded, after the session's statements of the first steps.
   */
  ghost predicate ReplyIs(
    sem: Sem, states: seq<State>, events: seq<Event>, i: nat, sid: Sid, stmt: Stmt, reply: Option<string>)
    requires i <= |events| < |states|
  {
    exists j: nat, k: nat :: k < i && Begins(events, sid, j, k) &&
      var db := events[j].db;
      && db in states[j].head
      && reply == ReplyOf(Execute(sem, db, Fold(sem, db, states[j].head[db], Statements(events, sid, i)), stmt))
  }

  /** The session's content is the head BEGIN loaded, after the session's statements of the first steps. */
  ghost predicate ContentIs(
    sem: Sem, states: seq<State>, events: seq<Event>, i: nat, sid: Sid, db: Db, content: Content)
    requires i <= |events| < |states|
  {
    exists j: nat, k: nat :: k < i && Begins(events, sid, j, k) && events[j].db == db && db in states[j].head
      && content == Fold(sem, db, states[j].head[db], Statements(events, sid, i))
  }

  // ------------------------------------------------ at most one publication

  /** A session that can still commit or is committing has neither been published nor dropped. */
  ghost predicate CommitsOk(s: State, events: seq<Event>, i: nat)
    requires i <= |events|
  {
    && (forall sid :: sid in s.live ==> !Published(events, sid, i) && !Dropped(events, sid, i))
    && (forall call, sid :: call in s.pcs && Commits(s.pcs[call], sid) ==>
          sid !in s.live && !Published(events, sid, i) && !Dropped(events, sid, i))
    && (forall a, b, sid :: a in s.pcs && b in s.pcs && Commits(s.pcs[a], sid) && Commits(s.pcs[b], sid) ==> a == b)
  }

  lemma {:induction false} HistoryGrows(events: seq<Event>, sid: Sid, i: nat)
    requires i < |events|
    ensures Published(events, sid, i + 1) <==> Published(events, sid, i) || Publishes(events[i], sid)
    ensures Dropped(events, sid, i + 1) <==> Dropped(events, sid, i) || Drops(events[i], sid)
  {
  }

  lemma {:induction false} StepKeepsCommits(sem: Sem, states: seq<State>, events: seq<Event>, i: nat)
    requires IsRun(sem, states, events) && i < |events| && LocksOk(sem, states[i]) && CommitsOk(states[i], events, i)
    ensures CommitsOk(states[i + 1], events, i + 1)
  {
    var s, s', e := states[i], states[i + 1], events[i];
    assert StepAt(sem, states, events, i);
    forall sid ensures Published(events, sid, i + 1) <==> Published(events, sid, i) || Publishes(e, sid)
               ensures Dropped(events, sid, i + 1) <==> Dropped(events, sid, i) || Drops(e, sid) {
      HistoryGrows(events, sid, i);
    }
    StepOnLive(sem, s, e);
    forall call, sid | call in s'.pcs && Commits(s'.pcs[call], sid)
      ensures sid in s.txns && ((call in s.pcs && Commits(s.pcs[call], sid)) || e == CommitLookup(call, sid))
    {
      StepOnCommits(sem, s, e, call, sid);
    }
    if e.BeginInsert? { NothingBeforeBegin(sem, states, events, i, e.sid); }
    CommitsStep(s, s', e, events, i);
  }

  lemma {:induction false} CommitsStep(s: State, s': State, e: Event, events: seq<Event>, i: nat)
    requires i < |events| && CommitsOk(s, events, i)
    requires forall sid :: Published(events, sid, i + 1) <==> Published(events, sid, i) || Publishes(e, sid)
    requires forall sid :: Dropped(events, sid, i + 1) <==> Dropped(events, sid, i) || Drops(e, sid)
    requires forall sid :: sid in s'.live ==>
      sid in s.live || (e.BeginInsert? && !Published(events, sid, i) && !Dropped(events, sid, i))
    requires forall sid :: Drops(e, sid) ==> (sid in s.live && sid !in s'.live) || Ends(s, s', e, sid)
    requires e.CommitLookup? ==> e.call !in s.pcs && e.sid in s.live && e.sid !in s'.live
    requires forall call, sid :: call in s'.pcs && Commits(s'.pcs[call], sid) ==>
      (call in s.pcs && Commits(s.pcs[call], sid) && !(e.BeginInsert? && e.sid == sid)) || e == CommitLookup(call, sid)
    requires forall sid :: Publishes(e, sid) ==> Ends(s, s', e, sid)
    requires forall sid :: sid in s'.live && sid !in s.live ==> e.BeginInsert? && e.sid == sid
    ensures CommitsOk(s', events, i + 1)
  {
    forall sid | sid in s'.live ensures !Published(events, sid, i + 1) && !Dropped(events, sid, i + 1) {
      assert sid in s.live ==> !Published(events, sid, i) && !Dropped(events, sid, i);
      assert !Publishes(e, sid) && !Drops(e, sid);
    }
    forall call, sid | call in s'.pcs && Commits(s'.pcs[call], sid)
      ensures sid !in s'.live && !Published(events, sid, i + 1) && !Dropped(events, sid, i + 1)
    {
      if call in s.pcs && Commits(s.pcs[call], sid) {
        assert sid !in s.live && !Published(events, sid, i) && !Dropped(events, sid, i);
        assert !Publishes(e, sid) && !Drops(e, sid);
      } else {
        assert e == CommitLookup(call, sid) && !Publishes(e, sid) && !Drops(e, sid);
      }
    }
    forall a, b, sid | a in s'.pcs && b in s'.pcs && Commits(s'.pcs[a], sid) && Commits(s'.pcs[b], sid) ensures a == b {
      assert (a in s.pcs && Commits(s.pcs[a], sid)) || e == CommitLookup(a, sid);
      assert (b in s.pcs && Commits(s.pcs[b], sid)) || e == CommitLookup(b, sid);
    }
  }

  lemma {:induction false} CommitsInEveryState(sem: Sem, states: seq<State>, events: seq<Event>, i: nat)
    requires IsRun(sem, states, events) && i < |states|
    ensures CommitsOk(states[i], events, i)
  {
    if i > 0 {
      CommitsInEveryState(sem, states, events, i - 1);
      LocksInEveryState(sem, states, events, i - 1);
      StepKeepsCommits(sem, states, events, i - 1);
    }
  }

  /** A session publishes at most once. */
  lemma {:induction false} PublishedOnce(sem: Sem, states: seq<State>, events: seq<Event>, a: nat, b: nat, sid: Sid)
    requires IsRun(sem, states, events) && a < |events| && b < |events|
    requires Publishes(events[a], sid) && Publishes(events[b], sid)
    ensures a == b
  {
    CommitsInEveryState(sem, states, events, a);
    CommitsInEveryState(sem, states, events, b);
    assert StepAt(sem, states, events, a) && StepAt(sem, states, events, b);
    assert a < b ==> Published(events, sid, b);
    assert b < a ==> Published(events, sid, a);
  }

  lemma {:induction false} PublishedBy(events: seq<Event>, sid: Sid, b: nat, a: nat)
    requires b < a <= |events|
    ensures Publishes(events[b], sid) ==> Published(events, sid, a)
  {
  }

  /** A session that was rolled back or cleaned up, or whose COMMIT failed, publishes nothing, before or after. */
  lemma {:induction false} DroppedPublishesNothing(
    sem: Sem, states: seq<State>, events: seq<Event>, a: nat, b: nat, sid: Sid)
    requires IsRun(sem, states, events) && a < |events| && b < |events| && Drops(events[a], sid)
    ensures !Publishes(events[b], sid)
  {
    CommitsInEveryState(sem, states, events, a);
    CommitsInEveryState(sem, states, events, b);
    assert StepAt(sem, states, events, a) && StepAt(sem, states, events, b);
    assert a < b ==> Dropped(events, sid, b);
    if b < a { PublishedBy(events, sid, b, a); }
  }

  /** The head of a database changes only when one of its sessions publishes or its worker finishes a write. */
  lemma {:induction false} OnlyCommitsAndWorkersMoveTheHead(
    sem: Sem, states: seq<State>, events: seq<Event>, i: nat, db: Db)
    requires IsRun(sem, states, events) && i < |events| && db in states[i].head
    ensures db in states[i + 1].head
    ensures states[i + 1].head[db] != states[i].head[db] ==>
      var e := events[i];
      (e.CommitPublish? && e.sid in states[i].txns && states[i].txns[e.sid].db == db)
      || (e.WorkDone? && e.db == db && e.job.Write?)
  {
    assert StepAt(sem, states, events, i);
  }

  // --------------------------------------------------- the write queue

  /** The jobs put in a database's queue in the first `n` steps. */
  function Enqueued(events: seq<Event>, db: Db, n: nat): seq<Stmt>
    requires n <= |events|
  {
    if n == 0 then []
    else
      var before, e := Enqueued(events, db, n - 1), events[n - 1];
      if e.Enqueue? && e.db == db then before + [e.job] else before
  }

  /** The jobs a database's worker has finished in the first `n` steps. */
  function Finished(events: seq<Event>, db: Db, n: nat): seq<Stmt>
    requires n <= |events|
  {
    if n == 0 then []
    else
      var before, e := Finished(events, db, n - 1), events[n - 1];
      if e.WorkDone? && e.db == db then before + [e.job] else before
  }

  function InHand(w: Worker): seq<Stmt> { if w.Idle? then [] else [w.job] }

  /** Jobs are finished in the order they were queued, and none is lost. */
  lemma {:induction false} QueueIsFirstInFirstOut(sem: Sem, states: seq<State>, events: seq<Event>, i: nat, db: Db)
    requires IsRun(sem, states, events) && i < |states|
    ensures Enqueued(events, db, i)
         == Finished(events, db, i) + InHand(WorkerOf(states[i], db)) + QueueOf(states[i], db)
  {
    if i > 0 {
      QueueIsFirstInFirstOut(sem, states, events, i - 1, db);
      var s, e := states[i - 1], events[i - 1];
      assert StepAt(sem, states, events, i - 1);
      StepOnQueue(sem, s, e, db);
      var done, hand, queue := Finished(events, db, i - 1), InHand(WorkerOf(s, db)), QueueOf(s, db);
      if e.Enqueue? && e.db == db {
        Seqs.Assoc(done + hand, queue, [e.job]);
      } else if e.WorkTake? && e.db == db {
        Seqs.Empty(done);
        Seqs.Uncons(queue, 0);
        assert queue[0..] == queue;
        Seqs.Assoc(done, [queue[0]], queue[1..]);
      } else if e.WorkDone? && e.db == db {
        Seqs.Empty(done + [e.job]);
      }
    }
  }

  /** What a worker has loaded is the head at its last load, for the job it had taken. */
  lemma {:induction false} LoadOrigin(sem: Sem, states: seq<State>, events: seq<Event>, i: nat, db: Db) returns (l: nat)
    requires IsRun(sem, states, events) && i < |states| && WorkerOf(states[i], db).Loaded?
    ensures l < i && events[l] == WorkLoad(db) && db in states[l].head
    ensures forall m :: l < m < i ==> events[m] != WorkLoad(db)
    ensures WorkerOf(states[i], db).content == states[l].head[db]
  {
    assert StepAt(sem, states, events, i - 1);
    StepOnQueue(sem, states[i - 1], events[i - 1], db);
    if events[i - 1] == WorkLoad(db) {
      l := i - 1;
    } else {
      l := LoadOrigin(sem, states, events, i - 1, db);
    }
  }

  /** Step `l` is the load that the work of step `i` is based on. */
  ghost predicate LoadsFor(states: seq<State>, events: seq<Event>, l: nat, i: nat, db: Db)
    requires i < |events| < |states|
  {
    l < i && events[l] == WorkLoad(db) && db in states[l].head && forall m :: l < m < i ==> events[m] != WorkLoad(db)
  }

  /**
   What finishing a job does: the reply is that of the job on the head as it was loaded, and a write that succeeds there
   becomes the head, whatever happened to the head since. A job for an unknown database fails.
   */
  ghost predicate JobDone(
    sem: Sem, states: seq<State>, events: seq<Event>, i: nat, db: Db, job: Stmt, reply: Option<string>)
    requires i < |events| < |states|
  {
    if db !in states[i].head then reply.None? && states[i + 1].head == states[i].head
    else
      exists l: nat :: LoadsFor(states, events, l, i, db) && Gives(sem, states, i, db, states[l].head[db], job, reply)
  }

  /** Step `i` answers, and sets the head, as the job does on this content. */
  predicate Gives(sem: Sem, states: seq<State>, i: nat, db: Db, c: Content, job: Stmt, reply: Option<string>)
    requires i + 1 < |states|
  {
    var outcome := Execute(sem, db, c, job);
    && reply == ReplyOf(outcome)
    && states[i + 1].head ==
       if job.Write? && outcome.Done? then states[i].head[db := outcome.content] else states[i].head
  }

  function ReplyOfJob(sem: Sem, s: State, db: Db, job: Stmt): Option<string> {
    var w := WorkerOf(s, db);
    if w.Loaded? then ReplyOf(Execute(sem, db, w.content, job)) else None
  }

  lemma {:induction false} JobsRunOnLoadedHeads(sem: Sem, states: seq<State>, events: seq<Event>, i: nat)
    requires IsRun(sem, states, events) && i < |events| && events[i].WorkDone?
    ensures var e := events[i];
      JobDone(sem, states, events, i, e.db, e.job, ReplyOfJob(sem, states[i], e.db, e.job))
  {
    var e := events[i];
    assert StepAt(sem, states, events, i);
    if WorkerOf(states[i], e.db).Loaded? {
      var l := LoadOrigin(sem, states, events, i, e.db);
      HeadsStay(sem, states, events, l, i, e.db);
      assert LoadsFor(states, events, l, i, e.db);
    }
  }

  /** No session of the database has published in the first `n` steps. */
  ghost predicate NoCommit(states: seq<State>, events: seq<Event>, db: Db, n: nat)
    requires n <= |events| < |states|
  {
    forall i :: 0 <= i < n && events[i].CommitPublish? ==>
      events[i].sid in states[i].txns && states[i].txns[events[i].sid].db != db
  }

  lemma {:induction false} FoldSnoc(sem: Sem, db: Db, c: Content, done: seq<Stmt>, job: Stmt)
    ensures Fold(sem, db, c, done + [job]) == After(sem, db, Fold(sem, db, c, done), job)
  {
    assert (done + [job])[..|done|] == done;
  }

  /** The head, and what the worker has loaded, are the fold of the finished jobs. */
  ghost predicate HeadIs(s: State, db: Db, c: Content) {
    db in s.head && s.head[db] == c && (WorkerOf(s, db).Loaded? ==> WorkerOf(s, db).content == c)
  }

  lemma {:induction false} StepKeepsHead(sem: Sem, s: State, e: Event, db: Db, c: Content)
    requires LocksOk(sem, s) && Enabled(s, e) && HeadIs(s, db, c)
    requires e.CommitPublish? ==> s.txns[e.sid].db != db
    ensures HeadIs(Apply(sem, s, e), db, if e.WorkDone? && e.db == db then After(sem, db, c, e.job) else c)
  {
    StepOnQueue(sem, s, e, db);
    StepOnHead(sem, s, e, db);
  }

  /** Without a COMMIT on it, a database's head is the fold of its finished jobs, whatever goes on elsewhere. */
  lemma {:induction false} HeadIsFoldOfJobs(sem: Sem, states: seq<State>, events: seq<Event>, i: nat, db: Db)
    requires IsRun(sem, states, events) && i < |states| && db in states[0].head && NoCommit(states, events, db, i)
    ensures HeadIs(states[i], db, Fold(sem, db, states[0].head[db], Finished(events, db, i)))
  {
    if i > 0 {
      var s, e, done := states[i - 1], events[i - 1], Finished(events, db, i - 1);
      var c := Fold(sem, db, states[0].head[db], done);
      HeadIsFoldOfJobs(sem, states, events, i - 1, db);
      LocksInEveryState(sem, states, events, i - 1);
      assert StepAt(sem, states, events, i - 1);
      StepKeepsHead(sem, s, e, db, c);
      if e.WorkDone? { FoldSnoc(sem, db, states[0].head[db], done, e.job); }
    }
  }

  // ------------------------------------- transactions and auto-commit

  /** Statements run one by one outside a transaction: each loads the head, and a successful write replaces it. */
  function AutoCommit(sem: Sem, db: Db, head: Content, stmts: seq<Stmt>): (Content, seq<Option<string>>) {
    if stmts == [] then (head, [])
    else
      match Execute(sem, db, head, stmts[0])
      case Failed => var r := AutoCommit(sem, db, head, stmts[1..]); (r.0, [None] + r.1)
      case Done(content, reply) =>
        var r := AutoCommit(sem, db, if stmts[0].Query? then head else content, stmts[1..]);
        (r.0, [Some(reply)] + r.1)
  }

  function ReplyOf(o: Outcome): Option<string> {
    match o case Done(_, reply) => Some(reply) case Failed => None
  }

  /** The replies of a session's statements, each run on the content the earlier ones left. */
  function Replies(sem: Sem, db: Db, c: Content, stmts: seq<Stmt>): seq<Option<string>> {
    if stmts == [] then []
    else
      var n := |stmts| - 1;
      Replies(sem, db, c, stmts[..n]) + [ReplyOf(Execute(sem, db, Fold(sem, db, c, stmts[..n]), stmts[n]))]
  }

  lemma {:induction false} FoldFromFront(sem: Sem, db: Db, c: Content, stmts: seq<Stmt>)
    requires stmts != []
    ensures Fold(sem, db, c, stmts) == Fold(sem, db, After(sem, db, c, stmts[0]), stmts[1..])
    ensures Replies(sem, db, c, stmts)
         == Replies(sem, db, c, stmts[..1]) + Replies(sem, db, After(sem, db, c, stmts[0]), stmts[1..])
  {
    var n := |stmts| - 1;
    if n == 0 {
      assert stmts[..1] == stmts && stmts[..0] == [];
      assert Fold(sem, db, c, []) == c;
    } else {
      FoldFromFront(sem, db, c, stmts[..n]);
      assert stmts[..n][1..] == stmts[1..][..n - 1] && stmts[..n][..1] == stmts[..1] && stmts[1..][n - 1] == stmts[n];
    }
  }

  /** A session on its own ends in the content, and gives the replies, of its statements run with auto-commit. */
  lemma {:induction false} SessionEqualsAutoCommit(sem: Sem, db: Db, c: Content, stmts: seq<Stmt>)
    ensures AutoCommit(sem, db, c, stmts) == (Fold(sem, db, c, stmts), Replies(sem, db, c, stmts))
  {
    if stmts != [] {
      FoldFromFront(sem, db, c, stmts);
      SessionEqualsAutoCommit(sem, db, After(sem, db, c, stmts[0]), stmts[1..]);
      assert stmts[..1] == [stmts[0]] && [stmts[0]][..0] == [];
      var reply := ReplyOf(Execute(sem, db, c, stmts[0]));
      assert Replies(sem, db, c, [stmts[0]]) == [] + [reply] == [reply];
    }
  }

  /**
   A COMMIT has the effect of its statements run at that moment, one by one, if and only if they turn the head of now
   into what they made of the head BEGIN loaded; in particular when the head has not changed.
   */
  lemma {:induction false} CommitIsSerialExactly(sem: Sem, states: seq<State>, events: seq<Event>, c: nat, sid: Sid)
    returns (j: nat, k: nat)
    requires IsRun(sem, states, events) && c < |events| && Publishes(events[c], sid)
    ensures k < c && Begins(events, sid, j, k)
    ensures var db, stmts := events[j].db, Statements(events, sid, c);
      && db in states[j].head && db in states[c].head && db in states[c + 1].head
      && var loaded, now := states[j].head[db], states[c].head[db];
      && (states[c + 1].head[db] == AutoCommit(sem, db, now, stmts).0
          <==> Fold(sem, db, now, stmts) == Fold(sem, db, loaded, stmts))
      && (now == loaded ==> states[c + 1].head[db] == AutoCommit(sem, db, now, stmts).0)
  {
    j, k := CommitPublishesFold(sem, states, events, c, sid);
    HeadsStay(sem, states, events, j, c, events[j].db);
    SessionEqualsAutoCommit(sem, events[j].db, states[c].head[events[j].db], Statements(events, sid, c));
  }

  lemma {:induction false} HeadsStay(sem: Sem, states: seq<State>, events: seq<Event>, i: nat, n: nat, db: Db)
    requires IsRun(sem, states, events) && i <= n < |states| && db in states[i].head
    ensures db in states[n].head
    decreases n
  {
    if i < n {
      HeadsStay(sem, states, events, i, n - 1, db);
      OnlyCommitsAndWorkersMoveTheHead(sem, states, events, n - 1, db);
    }
  }

  // ------------------------------------------- a write lost by a COMMIT

  lemma {:induction false} Extend(sem: Sem, states: seq<State>, events: seq<Event>, e: Event)
    requires IsRun(sem, states, events) && Enabled(states[|events|], e)
    ensures IsRun(sem, states + [Apply(sem, states[|events|], e)], events + [e])
  {
    var states', events' := states + [Apply(sem, states[|events|], e)], events + [e];
    forall i | 0 <= i < |events'| ensures StepAt(sem, states', events', i) {
      if i < |events| {
        assert StepAt(sem, states, events, i);
        assert states'[i] == states[i] && states'[i + 1] == states[i + 1] && events'[i] == events[i];
      }
    }
  }

  lemma {:induction false} BeginFirst(sem: Sem, db: Db, c: Content) returns (states: seq<State>, events: seq<Event>)
    ensures IsRun(sem, states, events) && events == [BeginLoad(0, db), BeginInsert(0, 0)]
    ensures states[0].head == map[db := c]
    ensures states[2] == State(map[db := c], {0}, map[0 := Txn(db, c, None)], None, map[], map[], map[])
  {
    states, events := [State(map[db := c], {}, map[], None, map[], map[], map[])], [];
    Extend(sem, states, events, BeginLoad(0, db));
    states, events := states + [Apply(sem, states[0], BeginLoad(0, db))], events + [BeginLoad(0, db)];
    Extend(sem, states, events, BeginInsert(0, 0));
    states, events := states + [Apply(sem, states[1], BeginInsert(0, 0))], events + [BeginInsert(0, 0)];
    assert states[2].pcs == map[] && states[2].live == {0} && states[2].txns == map[0 := Txn(db, c, None)];
  }

  /** A BEGIN on session 0, then a write that the worker has taken from the queue. */
  lemma {:induction false} TakeAfterBegin(
    sem: Sem, db: Db, c: Content, w: WriteText) returns (states: seq<State>, events: seq<Event>)
    ensures IsRun(sem, states, events) && |events| == 4 && states[0].head == map[db := c]
    ensures events[0] == BeginLoad(0, db)
    ensures var s := states[4];
      && s.head == map[db := c] && s.live == {0} && s.txns == map[0 := Txn(db, c, None)]
      && s.mutex.None? && s.pcs == map[] && WorkerOf(s, db) == Took(Write(w))
    ensures forall i :: 0 <= i < 4 ==> !events[i].ExecStore?
  {
    states, events := BeginFirst(sem, db, c);
    var plan := [Enqueue(db, Write(w)), WorkTake(db)];
    Extend(sem, states, events, plan[0]);
    states, events := states + [Apply(sem, states[2], plan[0])], events + [plan[0]];
    Extend(sem, states, events, plan[1]);
    states, events := states + [Apply(sem, states[3], plan[1])], events + [plan[1]];
  }

  /** A BEGIN on session 0, then a queued write that succeeds. */
  lemma {:induction false} WriteAfterBegin(sem: Sem, db: Db, c: Content, w: WriteText, c': Content, reply: string)
    returns (states: seq<State>, events: seq<Event>)
    requires sem.signed(c, db, w) && sem.write(c, w) == Some((c', reply))
    ensures IsRun(sem, states, events) && |events| == 6
    ensures states[0].head == map[db := c] && events[0] == BeginLoad(0, db) && events[5] == WorkDone(db, Write(w))
    ensures states[6].head == map[db := c'] && states[6].live == {0} && states[6].txns == map[0 := Txn(db, c, None)]
    ensures states[6].mutex.None? && states[6].pcs == map[] && forall i :: 0 <= i < 6 ==> !events[i].ExecStore?
  {
    states, events := TakeAfterBegin(sem, db, c, w);
    var plan := [WorkLoad(db), WorkDone(db, Write(w))];
    Extend(sem, states, events, plan[0]);
    states, events := states + [Apply(sem, states[4], plan[0])], events + [plan[0]];
    Extend(sem, states, events, plan[1]);
    states, events := states + [Apply(sem, states[5], plan[1])], events + [plan[1]];
  }

  /** Then the session's COMMIT holds the content to publish, as BEGIN loaded it. */
  lemma {:induction false} CommitAfterWrite(sem: Sem, db: Db, c: Content, w: WriteText, c': Content, reply: string)
    returns (states: seq<State>, events: seq<Event>)
    requires sem.signed(c, db, w) && sem.write(c, w) == Some((c', reply))
    ensures IsRun(sem, states, events) && |events| == 8 && events[5] == WorkDone(db, Write(w))
    ensures states[6].head == map[db := c']
    ensures states[8].head == map[db := c'] && states[8].txns == map[0 := Txn(db, c, Some(1))]
    ensures states[8].pcs == map[1 := CommitHolds(0)]
    ensures forall i :: 0 <= i < 8 ==> !events[i].ExecStore?
  {
    states, events := WriteAfterBegin(sem, db, c, w, c', reply);
    var plan := [CommitLookup(1, 0), CommitLock(1, 0)];
    Extend(sem, states, events, plan[0]);
    states, events := states + [Apply(sem, states[6], plan[0])], events + [plan[0]];
    Extend(sem, states, events, plan[1]);
    states, events := states + [Apply(sem, states[7], plan[1])], events + [plan[1]];
  }

  /**
   COMMIT checks for no conflict: a write finished between BEGIN and COMMIT is overwritten by the commit of an empty
   session.
   */
  lemma {:induction false} CommitLosesAWrite(sem: Sem, db: Db, c: Content, w: WriteText, c': Content, reply: string)
    returns (states: seq<State>, events: seq<Event>)
    requires sem.signed(c, db, w) && sem.write(c, w) == Some((c', reply))
    ensures IsRun(sem, states, events) && |events| == 10 && Publishes(events[9], 0) && Statements(events, 0, 10) == []
    ensures events[5] == WorkDone(db, Write(w)) && states[6].head == map[db := c'] && states[10].head == map[db := c]
  {
    states, events := CommitAfterWrite(sem, db, c, w, c', reply);
    var plan := [CommitSave(1, 0), CommitPublish(1, 0)];
    Extend(sem, states, events, plan[0]);
    states, events := states + [Apply(sem, states[8], plan[0])], events + [plan[0]];
    Extend(sem, states, events, plan[1]);
    states, events := states + [Apply(sem, states[9], plan[1])], events + [plan[1]];
    NoStatements(events, 0, 10);
  }

  lemma {:induction false} NoStatements(events: seq<Event>, sid: Sid, n: nat)
    requires n <= |events| && forall i :: 0 <= i < n ==> !events[i].ExecStore?
    ensures Statements(events, sid, n) == []
  {
    if n > 0 { NoStatements(events, sid, n - 1); }
  }
}
