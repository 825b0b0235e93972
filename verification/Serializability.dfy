/**
 When no finished work is lost: a COMMIT and a worker's write both replace the head by something computed from an older
 one. If the head is still that one each time, the head is always what the published statements make of the first head,
 in the order of publication; otherwise a COMMIT can lose a write and a write can lose a COMMIT.
 */
module Serializability {
  import opened Options
  import opened Transactions
  import opened TransactionSafety
  import Seqs

  // ------------------------------------------------- the order of publication

  /** The step publishes a session of the database. */
  predicate PublishesFor(s: State, e: Event, db: Db) {
    e.CommitPublish? && e.sid in s.txns && s.txns[e.sid].db == db
  }

  /** What is published for a database in the first `n` steps: whole sessions as they commit, jobs as they finish. */
  function Serial(states: seq<State>, events: seq<Event>, db: Db, n: nat): seq<Stmt>
    requires n <= |events| < |states|
  {
    if n == 0 then []
    else
      var before, e := Serial(states, events, db, n - 1), events[n - 1];
      if PublishesFor(states[n - 1], e, db) then before + Statements(events, e.sid, n - 1)
      else if e.WorkDone? && e.db == db then before + [e.job]
      else before
  }

  /** A COMMIT finds as head the content its BEGIN loaded. */
  ghost predicate FindsHead(states: seq<State>, events: seq<Event>, c: nat, sid: Sid, db: Db)
    requires c < |events| < |states|
  {
    exists j: nat, k: nat :: k < c && Begins(events, sid, j, k) &&
      db in states[j].head && db in states[c].head && states[c].head[db] == states[j].head[db]
  }

  /** A worker that finishes a write finds as head the content it loaded. */
  predicate WorkerFindsHead(s: State, db: Db) {
    db in s.head && WorkerOf(s, db).Loaded? && s.head[db] == WorkerOf(s, db).content
  }

  /** Step `i`, if it publishes for the database, replaces the head it was computed from. */
  ghost predicate Fresh(states: seq<State>, events: seq<Event>, i: nat, db: Db)
    requires i < |events| < |states|
  {
    && (PublishesFor(states[i], events[i], db) ==> FindsHead(states, events, i, events[i].sid, db))
    && (events[i].WorkDone? && events[i].db == db && events[i].job.Write? ==> WorkerFindsHead(states[i], db))
  }

  // --------------------------------------------------------- one BEGIN each

  lemma {:induction false} EntryStays(sem: Sem, states: seq<State>, events: seq<Event>, i: nat, n: nat, sid: Sid)
    requires IsRun(sem, states, events) && i <= n < |states| && sid in states[i].txns
    ensures sid in states[n].txns
  {
    if i < n {
      EntryStays(sem, states, events, i, n - 1, sid);
      SessionInRun(sem, states, events, n - 1, sid);
    }
  }

  /** A session is entered by one step only. */
  lemma {:induction false} EnteredOnce(sem: Sem, states: seq<State>, events: seq<Event>, k: nat, k': nat, sid: Sid)
    requires IsRun(sem, states, events) && k < |events| && k' < |events|
    requires events[k].BeginInsert? && events[k].sid == sid && events[k'].BeginInsert? && events[k'].sid == sid
    ensures k == k'
  {
    assert StepAt(sem, states, events, k) && StepAt(sem, states, events, k');
    if k < k' { EntryStays(sem, states, events, k + 1, k', sid); }
    if k' < k { EntryStays(sem, states, events, k' + 1, k, sid); }
  }

  /** A session has one BEGIN. */
  lemma {:induction false} BeginIsUnique(
    sem: Sem, states: seq<State>, events: seq<Event>, sid: Sid, j: nat, k: nat, j': nat, k': nat)
    requires IsRun(sem, states, events) && Begins(events, sid, j, k) && Begins(events, sid, j', k')
    ensures j == j' && k == k'
  {
    EnteredOnce(sem, states, events, k, k', sid);
  }

  // ------------------------------------------------------------ the theorem

  lemma {:induction false} FoldJoin(sem: Sem, db: Db, c: Content, a: seq<Stmt>, b: seq<Stmt>)
    ensures Fold(sem, db, c, a + b) == Fold(sem, db, Fold(sem, db, c, a), b)
  {
    if b == [] {
      Seqs.Empty(a);
    } else {
      var init, last := b[..|b| - 1], b[|b| - 1];
      assert b == init + [last];
      FoldJoin(sem, db, c, a, init);
      Seqs.Assoc(a, init, [last]);
      FoldSnoc(sem, db, c, a + init, last);
      FoldSnoc(sem, db, Fold(sem, db, c, a), init, last);
    }
  }

  /** A COMMIT that finds its head folds its statements into it. */
  lemma {:induction false} FreshCommit(sem: Sem, states: seq<State>, events: seq<Event>, i: nat, db: Db)
    requires IsRun(sem, states, events) && i < |events| && db in states[i].head
    requires PublishesFor(states[i], events[i], db) && FindsHead(states, events, i, events[i].sid, db)
    ensures db in states[i + 1].head
    ensures states[i + 1].head[db] == Fold(sem, db, states[i].head[db], Statements(events, events[i].sid, i))
  {
    var sid := events[i].sid;
    var j: nat, k: nat :| k < i && Begins(events, sid, j, k) &&
      db in states[j].head && db in states[i].head && states[i].head[db] == states[j].head[db];
    var j', k' := CommitPublishesFold(sem, states, events, i, sid);
    BeginIsUnique(sem, states, events, sid, j, k, j', k');
    SessionDb(sem, states, events, i, sid, j, k);
  }

  /** The database of a session is that of its BEGIN. */
  lemma {:induction false} SessionDb(
    sem: Sem, states: seq<State>, events: seq<Event>, i: nat, sid: Sid, j: nat, k: nat)
    requires IsRun(sem, states, events) && i < |states| && sid in states[i].txns && Begins(events, sid, j, k)
    ensures events[j].db == states[i].txns[sid].db
  {
    var j', k' := ContentIsFold(sem, states, events, i, sid);
    BeginIsUnique(sem, states, events, sid, j, k, j', k');
  }

  /** A job whose worker finds its head is applied to it; one that only reads changes nothing anyway. */
  lemma {:induction false} FreshJob(sem: Sem, states: seq<State>, events: seq<Event>, i: nat, db: Db)
    requires IsRun(sem, states, events) && i < |events| && db in states[i].head
    requires events[i].WorkDone? && events[i].db == db && (events[i].job.Write? ==> WorkerFindsHead(states[i], db))
    ensures db in states[i + 1].head && states[i + 1].head[db] == After(sem, db, states[i].head[db], events[i].job)
  {
    assert StepAt(sem, states, events, i);
    StepOnHead(sem, states[i], events[i], db);
  }

  /** Any other step leaves the head. */
  lemma {:induction false} OtherStep(sem: Sem, states: seq<State>, events: seq<Event>, i: nat, db: Db)
    requires IsRun(sem, states, events) && i < |events| && db in states[i].head
    requires !PublishesFor(states[i], events[i], db) && !(events[i].WorkDone? && events[i].db == db)
    ensures db in states[i + 1].head && states[i + 1].head[db] == states[i].head[db]
  {
    OnlyCommitsAndWorkersMoveTheHead(sem, states, events, i, db);
  }

  /**
   If each publication for a database replaces the head it was computed from, nothing is lost: the head is what the
   first head becomes under the statements of all published sessions and all finished jobs, in the order of publication.
   */
  lemma {:induction false} FreshRunsLoseNothing(sem: Sem, states: seq<State>, events: seq<Event>, n: nat, db: Db)
    requires IsRun(sem, states, events) && n < |states| && db in states[0].head
    requires forall i :: 0 <= i < n ==> Fresh(states, events, i, db)
    ensures db in states[n].head
    ensures states[n].head[db] == Fold(sem, db, states[0].head[db], Serial(states, events, db, n))
  {
    if n > 0 {
      var i, first := n - 1, states[0].head[db];
      FreshRunsLoseNothing(sem, states, events, i, db);
      assert Fresh(states, events, i, db);
      var before := Serial(states, events, db, i);
      if PublishesFor(states[i], events[i], db) {
        FreshCommit(sem, states, events, i, db);
        FoldJoin(sem, db, first, before, Statements(events, events[i].sid, i));
      } else if events[i].WorkDone? && events[i].db == db {
        FreshJob(sem, states, events, i, db);
        FoldSnoc(sem, db, first, before, events[i].job);
      } else {
        OtherStep(sem, states, events, i, db);
      }
    }
  }

  /**
   In such a run the replies are those of the serial order too: a statement of a session answers as it does after all
   that was published before the session's COMMIT and the session's own earlier statements.
   */
  lemma {:induction false} FreshRepliesAreSerial(
    sem: Sem, states: seq<State>, events: seq<Event>, c: nat, sid: Sid, db: Db, i: nat)
    requires IsRun(sem, states, events) && i < c < |events| && db in states[0].head
    requires forall m :: 0 <= m <= c ==> Fresh(states, events, m, db)
    requires events[c].CommitPublish? && events[c].sid == sid && PublishesFor(states[c], events[c], db)
    requires events[i].ExecStore? && events[i].sid == sid
    ensures var e, before := events[i], Serial(states, events, db, c) + Statements(events, sid, i);
      && e.call in states[i].pcs && states[i].pcs[e.call].ExecRan?
      && states[i].pcs[e.call].outcome == Execute(sem, db, Fold(sem, db, states[0].head[db], before), e.stmt)
  {
    FreshRunsLoseNothing(sem, states, events, c, db);
    assert Fresh(states, events, c, db);
    var j: nat, k: nat :| k < c && Begins(events, sid, j, k) &&
      db in states[j].head && db in states[c].head && states[c].head[db] == states[j].head[db];
    var j', k' := RepliesFollowTheFold(sem, states, events, i, sid);
    BeginIsUnique(sem, states, events, sid, j, k, j', k');
    SessionDb(sem, states, events, c, sid, j, k);
    FoldJoin(sem, db, states[0].head[db], Serial(states, events, db, c), Statements(events, sid, i));
  }

  // -------------------------------------------------- no weaker guard will do

  /** What a COMMIT publishes is right for every session if and only if the head is the one BEGIN loaded. */
  lemma {:induction false} CommitGuardIsExact(sem: Sem, db: Db, loaded: Content, now: Content)
    ensures (forall stmts :: AutoCommit(sem, db, now, stmts).0 == Fold(sem, db, loaded, stmts)) <==> now == loaded
  {
    if now == loaded {
      forall stmts ensures AutoCommit(sem, db, now, stmts).0 == Fold(sem, db, loaded, stmts) {
        SessionEqualsAutoCommit(sem, db, now, stmts);
      }
    } else {
      assert AutoCommit(sem, db, now, []).0 == now && Fold(sem, db, loaded, []) == loaded;
    }
  }

  /** A write that is signed and changes nothing, in some meaning of statements. */
  function KeepingSem(): Sem {
    Sem((c: Content, q: QueryText) => None,
        (c: Content, w: WriteText) => Some((c, "")),
        (c: Content, db: Db, w: WriteText) => true)
  }

  /** The head after a worker finishes a job it ran on the loaded content. */
  function HeadAfterJob(sem: Sem, db: Db, loaded: Content, now: Content, job: Stmt): Content {
    HeadsAfter(sem, map[db := now], db, Loaded(job, loaded), job)[db]
  }

  /** The worker publishes what the job makes of the present head. */
  predicate JobIsRight(sem: Sem, db: Db, loaded: Content, now: Content, job: Stmt) {
    HeadAfterJob(sem, db, loaded, now, job) == After(sem, db, now, job)
  }

  /** What a worker publishes is right whatever the job and its meaning if and only if the head is the one it loaded. */
  lemma {:induction false} WorkerGuardIsExact(db: Db, loaded: Content, now: Content)
    ensures (forall sem, job :: JobIsRight(sem, db, loaded, now, job)) <==> now == loaded
  {
    if now == loaded {
      forall sem, job ensures JobIsRight(sem, db, loaded, now, job) { JobOnItsHead(sem, db, now, job); }
    } else {
      var sem, job := WrongJob(db, loaded, now);
    }
  }

  /** A write that changes nothing puts the loaded content back. */
  lemma {:induction false} WrongJob(db: Db, loaded: Content, now: Content) returns (sem: Sem, job: Stmt)
    requires now != loaded
    ensures !JobIsRight(sem, db, loaded, now, job)
  {
    var w: WriteText := *;
    sem, job := KeepingSem(), Write(w);
    assert Execute(sem, db, loaded, job) == Done(loaded, "") && Execute(sem, db, now, job) == Done(now, "");
  }

  lemma {:induction false} JobOnItsHead(sem: Sem, db: Db, now: Content, job: Stmt)
    ensures HeadAfterJob(sem, db, now, now, job) == After(sem, db, now, job)
  {
  }

  // ------------------------------------------- a COMMIT lost by a worker

  /** One more step of a run. */
  lemma {:induction false} Then(sem: Sem, states: seq<State>, events: seq<Event>, e: Event)
    returns (states': seq<State>, events': seq<Event>)
    requires IsRun(sem, states, events) && Enabled(states[|events|], e)
    ensures IsRun(sem, states', events') && states <= states' && events' == events + [e]
    ensures states'[|events'|] == Apply(sem, states[|events|], e)
  {
    Extend(sem, states, events, e);
    states', events' := states + [Apply(sem, states[|events|], e)], events + [e];
  }

  /** The worker has loaded the head. */
  lemma {:induction false} WorkLoaded(sem: Sem, db: Db, c: Content, w: WriteText)
    returns (states: seq<State>, events: seq<Event>)
    ensures IsRun(sem, states, events) && states[0].head == map[db := c]
    ensures events == [Enqueue(db, Write(w)), WorkTake(db), WorkLoad(db)]
    ensures var s := states[3];
      && s.head == map[db := c] && s.live == {} && s.txns == map[]
      && s.mutex.None? && s.pcs == map[] && WorkerOf(s, db) == Loaded(Write(w), c)
  {
    states, events := [State(map[db := c], {}, map[], None, map[], map[], map[])], [];
    states, events := Then(sem, states, events, Enqueue(db, Write(w)));
    states, events := Then(sem, states, events, WorkTake(db));
    states, events := Then(sem, states, events, WorkLoad(db));
  }

  /** Then a session has begun on it. */
  lemma {:induction false} LoadThenBegin(sem: Sem, db: Db, c: Content, w: WriteText)
    returns (states: seq<State>, events: seq<Event>)
    ensures IsRun(sem, states, events) && states[0].head == map[db := c]
    ensures events == [Enqueue(db, Write(w)), WorkTake(db), WorkLoad(db), BeginLoad(0, db), BeginInsert(0, 0)]
    ensures states[3].head == map[db := c]
    ensures var s := states[5];
      && s.head == map[db := c] && s.live == {0} && s.txns == map[0 := Txn(db, c, None)]
      && s.mutex.None? && s.pcs == map[] && WorkerOf(s, db) == Loaded(Write(w), c)
  {
    states, events := WorkLoaded(sem, db, c, w);
    states, events := Then(sem, states, events, BeginLoad(0, db));
    states, events := Then(sem, states, events, BeginInsert(0, 0));
  }

  /** The session runs one write and stores its result. */
  lemma {:induction false} StatementStored(
    sem: Sem, states: seq<State>, events: seq<Event>, db: Db, c: Content, w: WriteText, c': Content, reply: string)
    returns (states': seq<State>, events': seq<Event>)
    requires IsRun(sem, states, events) && sem.signed(c, db, w) && sem.write(c, w) == Some((c', reply))
    requires var s := states[|events|];
      s.live == {0} && s.txns == map[0 := Txn(db, c, None)] && s.mutex.None? && s.pcs == map[]
    ensures IsRun(sem, states', events') && states <= states'
    ensures events' == events + [ExecLookup(0, 0, Write(w)), ExecLock(0, 0), ExecRun(0, 0), ExecStore(0, 0, Write(w))]
    ensures var s, s' := states[|events|], states'[|events'|];
      && s'.head == s.head && s'.live == {0} && s'.txns == map[0 := Txn(db, c', None)]
      && s'.mutex.None? && s'.pcs == map[] && s'.workers == s.workers && s'.queues == s.queues
  {
    states', events' := Then(sem, states, events, ExecLookup(0, 0, Write(w)));
    states', events' := Then(sem, states', events', ExecLock(0, 0));
    states', events' := Then(sem, states', events', ExecRun(0, 0));
    states', events' := Then(sem, states', events', ExecStore(0, 0, Write(w)));
  }

  /** The session commits. */
  lemma {:induction false} Committed(sem: Sem, states: seq<State>, events: seq<Event>, db: Db, c: Content)
    returns (states': seq<State>, events': seq<Event>)
    requires IsRun(sem, states, events)
    requires var s := states[|events|];
      s.live == {0} && s.txns == map[0 := Txn(db, c, None)] && s.mutex.None? && s.pcs == map[]
    ensures IsRun(sem, states', events') && states <= states'
    ensures events' == events + [CommitLookup(0, 0), CommitLock(0, 0), CommitSave(0, 0), CommitPublish(0, 0)]
    ensures var n := |events| + 3;
      states'[n].head == states[|events|].head && 0 in states'[n].txns && states'[n].txns[0].db == db
    ensures var s, s' := states[|events|], states'[|events'|];
      s'.head == s.head[db := c] && s'.workers == s.workers
  {
    states', events' := Then(sem, states, events, CommitLookup(0, 0));
    states', events' := Then(sem, states', events', CommitLock(0, 0));
    states', events' := Then(sem, states', events', CommitSave(0, 0));
    states', events' := Then(sem, states', events', CommitPublish(0, 0));
  }

  /** One session ran a statement and committed, while the worker still holds what it had loaded before. */
  lemma {:induction false} CommitDuringWork(
    sem: Sem, db: Db, c: Content, w: WriteText, w1: WriteText, c1: Content, reply1: string)
    returns (states: seq<State>, events: seq<Event>)
    requires sem.signed(c, db, w1) && sem.write(c, w1) == Some((c1, reply1))
    ensures IsRun(sem, states, events) && |events| == 13 && states[0].head == map[db := c]
    ensures events[..5] == [Enqueue(db, Write(w)), WorkTake(db), WorkLoad(db), BeginLoad(0, db), BeginInsert(0, 0)]
    ensures events[5..] == [ExecLookup(0, 0, Write(w1)), ExecLock(0, 0), ExecRun(0, 0), ExecStore(0, 0, Write(w1)),
                            CommitLookup(0, 0), CommitLock(0, 0), CommitSave(0, 0), CommitPublish(0, 0)]
    ensures states[3].head == map[db := c] && states[12].head == map[db := c]
    ensures PublishesFor(states[12], events[12], db)
    ensures states[13].head == map[db := c1] && WorkerOf(states[13], db) == Loaded(Write(w), c)
  {
    states, events := LoadThenBegin(sem, db, c, w);
    states, events := StatementStored(sem, states, events, db, c, w1, c1, reply1);
    states, events := Committed(sem, states, events, db, c1);
  }

  /**
   A COMMIT that finds the head its BEGIN loaded can be lost as well: a worker that loaded earlier and finishes later
   overwrites it. The step that is not fresh is the worker's.
   */
  lemma {:induction false} WorkerLosesACommit(
    sem: Sem, db: Db, c: Content, w: WriteText, c2: Content, reply2: string, w1: WriteText, c1: Content, reply1: string)
    returns (states: seq<State>, events: seq<Event>)
    requires sem.signed(c, db, w1) && sem.write(c, w1) == Some((c1, reply1))
    requires sem.signed(c, db, w) && sem.write(c, w) == Some((c2, reply2)) && c1 != c
    ensures IsRun(sem, states, events) && |events| == 14
    ensures Publishes(events[12], 0) && events[13] == WorkDone(db, Write(w))
    ensures Statements(events, 0, 12) == [Write(w1)] && FindsHead(states, events, 12, 0, db)
    ensures states[13].head == map[db := c1] && states[14].head == map[db := c2]
    ensures !Fresh(states, events, 13, db)
  {
    states, events := CommitDuringWork(sem, db, c, w, w1, c1, reply1);
    assert events[3] == BeginLoad(0, db) && events[4] == BeginInsert(0, 0);
    assert Begins(events, 0, 3, 4);
    OneStatement(events, w1);
    var events0 := events;
    states, events := Then(sem, states, events, WorkDone(db, Write(w)));
    assert events[..13] == events0;
    assert Begins(events, 0, 3, 4);
    SamePrefix(events0, events, 0, 12);
  }

  lemma {:induction false} OneStatement(events: seq<Event>, w: WriteText)
    requires |events| >= 12 && events[8] == ExecStore(0, 0, Write(w))
    requires forall i :: 0 <= i < 12 && i != 8 ==> !events[i].ExecStore?
    ensures Statements(events, 0, 12) == [Write(w)]
  {
    NoStatements(events, 0, 8);
    assert Statements(events, 0, 9) == [] + [Write(w)] == [Write(w)];
    for n := 9 to 12
      invariant Statements(events, 0, n) == [Write(w)]
    {
      assert !events[n].ExecStore?;
    }
  }

  lemma {:induction false} SamePrefix(a: seq<Event>, b: seq<Event>, sid: Sid, n: nat)
    requires n <= |a| && a <= b
    ensures Statements(a, sid, n) == Statements(b, sid, n)
  {
    if n > 0 { SamePrefix(a, b, sid, n - 1); }
  }
}
