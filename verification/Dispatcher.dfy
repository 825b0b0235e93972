/**
 The dispatcher of pkg/rpc/server.go: an object whose maps and transactions are updated in
 place while other goroutines run. Its ghost fields record the states it went through and
 the steps between them, so that `Valid` says its history is a run of Transactions.dfy and
 every theorem about runs holds of it. A method that leaves a stretch of code no other
 goroutine can see into calls `Others`, in which the rest of the server does what it likes.
 A call that finds a mutex taken, or a queue full, gives up as `Waiting`; the code would
 block there until it can go on.
 */
module Server {
  import opened Options
  import opened Transactions
  import opened TransactionSafety
  import opened Signatures

  /** What a call comes back with: still blocked, an error from the dispatcher, or a result. */
  datatype Answer<T> = Waiting | NotFound | Replied(value: T)

  /** Who takes a step: a call, or the worker of a database. */
  datatype Actor = Caller(call: Call) | WorkerOn(db: Db) | Nobody

  predicate By(e: Event, who: Actor) {
    match e
    case WorkTake(db) => who == WorkerOn(db)
    case WorkLoad(db) => who == WorkerOn(db)
    case WorkDone(db, _) => who == WorkerOn(db)
    case Rollback(_) => false
    case Cleanup(_) => false
    case Enqueue(_, _) => false
    case _ => who == Caller(e.call)
  }

  /** The step with which a call has its effect. */
  predicate Decides(e: Event, call: Call) { (e.ExecStore? || e.CommitPublish?) && e.call == call }

  /** Two states look the same to an actor: a call is where it was, a worker has the same job in hand. */
  predicate LooksSame(s: State, s': State, who: Actor) {
    match who
    case Caller(call) => (call in s'.pcs <==> call in s.pcs) && (call in s.pcs ==> s'.pcs[call] == s.pcs[call])
    case WorkerOn(db) =>
      WorkerOf(s', db) == WorkerOf(s, db) && QueueOf(s, db) <= QueueOf(s', db) && (db in s.head ==> db in s'.head)
    case Nobody => true
  }

  lemma {:induction false} OthersLeaveMe(sem: Sem, s: State, e: Event, who: Actor)
    requires LocksOk(sem, s) && Enabled(s, e) && !By(e, who)
    ensures LooksSame(s, Apply(sem, s, e), who)
  {
    if who.WorkerOn? {
      StepOnQueue(sem, s, e, who.db);
      if who.db in s.head { StepOnHead(sem, s, e, who.db); }
    }
  }

  lemma {:induction false} ReplyIsThat(
    sem: Sem, states: seq<State>, events: seq<Event>, call: Call, sid: Sid, stmt: Stmt)
    requires IsRun(sem, states, events) && events != [] && events[|events| - 1] == ExecStore(call, sid, stmt)
    ensures var n := |events| - 1; var s := states[n];
      call in s.pcs && s.pcs[call].ExecRan? && ReplyIs(sem, states, events, n, sid, stmt, ReplyOf(s.pcs[call].outcome))
  {
    var j, k := RepliesFollowTheFold(sem, states, events, |events| - 1, sid);
  }

  class Dispatcher {
    const sem: Sem
    var head: map<Db, Content>
    var transactions: set<Sid>
    var txns: map<Sid, Txn>
    var mutex: Option<Call>
    var calls: map<Call, Pc>
    var queues: map<Db, seq<Stmt>>
    var workers: map<Db, Worker>
    ghost var history: seq<State>
    ghost var trace: seq<Event>

    function View(): State
      reads this
    {
      State(head, transactions, txns, mutex, calls, queues, workers)
    }

    /** The object's past is a run, and its fields are the last state of it. */
    ghost predicate Valid()
      reads this
    {
      IsRun(sem, history, trace) && history[|trace|] == View()
    }

    /** One step, recorded. */
    twostate predicate Stepped(e: Event)
      reads this
    {
      && Valid() && Enabled(old(View()), e) && View() == Apply(sem, old(View()), e)
      && trace == old(trace) + [e] && history == old(history) + [View()]
    }

    /** Any number of steps since, none of them by `who`. */
    twostate predicate Later(who: Actor)
      reads this
    {
      && Valid() && old(trace) <= trace && old(history) <= history && LooksSame(old(View()), View(), who)
      && forall i :: |old(trace)| <= i < |trace| ==> !By(trace[i], who)
    }

    /** Any number of steps since. */
    twostate predicate Grown()
      reads this
    {
      Valid() && old(trace) <= trace && old(history) <= history
    }

    /** Any number of steps since, in which the call has had no effect yet. */
    twostate predicate Undecided(call: Call)
      reads this
    {
      Grown() && forall i :: |old(trace)| <= i < |trace| ==> !Decides(trace[i], call)
    }

    constructor (meaning: Sem, databases: map<Db, Content>)
      ensures Valid() && Init(View()) && head == databases && sem == meaning && trace == []
    {
      sem := meaning;
      head, transactions, txns, mutex, calls, queues, workers := databases, {}, map[], None, map[], map[], map[];
      trace := [];
      history := [State(databases, {}, map[], None, map[], map[], map[])];
    }

    /** Writes the step just taken into the history. */
    ghost method Record(e: Event)
      requires IsRun(sem, history, trace) && Enabled(history[|trace|], e) && View() == Apply(sem, history[|trace|], e)
      modifies this`history, this`trace
      ensures Valid() && trace == old(trace) + [e] && history == old(history) + [View()]
    {
      Extend(sem, history, trace, e);
      history := history + [View()];
      trace := trace + [e];
    }

    lemma {:induction false} Locks()
      requires Valid()
      ensures LocksOk(sem, View())
    {
      LocksInEveryState(sem, history, trace, |trace|);
    }

    /** A step by some other goroutine. */
    method Perform(e: Event)
      requires Valid() && Enabled(View(), e)
      modifies this
      ensures Stepped(e)
    {
      var s := Apply(sem, View(), e);
      head, transactions, txns, mutex := s.head, s.live, s.txns, s.mutex;
      calls, queues, workers := s.pcs, s.queues, s.workers;
      Record(e);
    }

    /** The rest of the server takes any steps it can. */
    method Others(who: Actor)
      requires Valid()
      modifies this
      ensures Later(who)
    {
      var rounds: nat := *;
      while rounds > 0
        invariant Later(who)
      {
        var e: Event := *;
        if Enabled(View(), e) && !By(e, who) {
          Locks();
          OthersLeaveMe(sem, View(), e, who);
          Perform(e);
        }
        rounds := rounds - 1;
      }
    }

    // ------------------------------------------------------------- BEGIN

    /** Takes the dispatcher's mutex and loads the database. */
    method LoadForBegin(call: Call, db: Db)
      requires Valid() && Enabled(View(), BeginLoad(call, db))
      modifies this
      ensures Stepped(BeginLoad(call, db))
    {
      mutex, calls := Some(call), calls[call := BeginHolds(db, head[db])];
      Record(BeginLoad(call, db));
    }

    /** Enters the new session and gives the mutex back. */
    method InsertSession(call: Call, sid: Sid)
      requires Valid() && Enabled(View(), BeginInsert(call, sid))
      modifies this
      ensures Stepped(BeginInsert(call, sid))
    {
      txns := txns[sid := Txn(calls[call].db, calls[call].loaded, None)];
      transactions := transactions + {sid};
      mutex, calls := None, calls - {call};
      Record(BeginInsert(call, sid));
    }

    /** An id that no session has had. */
    method NewSessionId() returns (sid: Sid)
      ensures sid !in txns
    {
      sid := 0;
      var rest := txns.Keys;
      while rest != {}
        invariant forall k :: k in txns && k !in rest ==> k < sid
        decreases rest
      {
        var k :| k in rest;
        if k >= sid { sid := k + 1; }
        rest := rest - {k};
      }
    }

    /**
     The last step entered a session not there before; it has no statements yet, and its content is the head it
     loaded.
     */
    ghost predicate JustBegun(sid: Sid, db: Db)
      reads this
    {
      && Valid() && trace != [] && sid !in history[|trace| - 1].txns && Statements(trace, sid, |trace|) == []
      && sid in transactions && sid in txns && txns[sid].db == db && txns[sid].holder.None?
      && ContentIs(sem, history, trace, |trace|, sid, db, txns[sid].content)
    }

    lemma {:induction false} Begun(call: Call, sid: Sid, db: Db)
      requires Valid() && trace != [] && trace[|trace| - 1] == BeginInsert(call, sid) && sid in txns
      requires txns[sid].db == db
      ensures JustBegun(sid, db)
    {
      assert StepAt(sem, history, trace, |trace| - 1);
      NothingBeforeBegin(sem, history, trace, |trace| - 1, sid);
      var j, k := ContentIsFold(sem, history, trace, |trace|, sid);
    }

    /** BEGIN: a new session, whose content is the head as it was at the load. */
    method BeginTransaction(call: Call, db: Db) returns (r: Answer<Sid>)
      requires Valid() && call !in calls
      modifies this
      ensures Grown() && call !in calls
      ensures r.Replied? ==> JustBegun(r.value, db) && |old(trace)| < |trace|
      ensures r.NotFound? ==> db !in head
      ensures !r.Replied? ==> Later(Caller(call))
    {
      Others(Caller(call));
      if mutex.Some? { return Waiting; }
      if db !in head { return NotFound; }
      LoadForBegin(call, db);
      Others(Caller(call));
      var sid := NewSessionId();
      InsertSession(call, sid);
      Begun(call, sid, db);
      r := Replied(sid);
    }

    // ------------------------------------------- a statement in a session

    /** Looks the session up under the dispatcher's mutex. */
    method FindForExecute(call: Call, sid: Sid, stmt: Stmt) returns (r: Answer<()>)
      requires Valid() && call !in calls
      modifies this
      ensures Undecided(call)
      ensures if r.Replied? then At(View(), call, ExecFound(sid, stmt)) else Later(Caller(call))
      ensures r.NotFound? ==> sid !in transactions
    {
      Others(Caller(call));
      if mutex.Some? { return Waiting; }
      if sid !in transactions { return NotFound; }
      Locks();
      calls := calls[call := ExecFound(sid, stmt)];
      Record(ExecLookup(call, sid, stmt));
      r := Replied(());
    }

    /** Takes the session's mutex. */
    method LockForExecute(call: Call, sid: Sid, stmt: Stmt) returns (ok: bool)
      requires Valid() && At(View(), call, ExecFound(sid, stmt))
      modifies this
      ensures Undecided(call)
      ensures ok ==> At(View(), call, ExecHolds(sid, stmt))
    {
      Others(Caller(call));
      Locks();
      if txns[sid].holder.Some? { return false; }
      txns := txns[sid := txns[sid].(holder := Some(call))];
      calls := calls[call := ExecHolds(sid, stmt)];
      Record(ExecLock(call, sid));
      ok := true;
    }

    /** Finds the session and takes its mutex. */
    method EnterForExecute(call: Call, sid: Sid, stmt: Stmt) returns (r: Answer<()>)
      requires Valid() && call !in calls
      modifies this
      ensures Undecided(call)
      ensures r.Replied? ==> At(View(), call, ExecHolds(sid, stmt))
      ensures r.NotFound? ==> sid !in transactions && Later(Caller(call))
    {
      r := FindForExecute(call, sid, stmt);
      if r.Replied? {
        var locked := LockForExecute(call, sid, stmt);
        if !locked { r := Waiting; }
      }
    }

    predicate HasRun(call: Call, sid: Sid, stmt: Stmt)
      reads this
    {
      call in calls && calls[call].ExecRan? && calls[call].sid == sid && calls[call].stmt == stmt
    }

    /** Verifies the signature of a write and runs the statement on the session's content. */
    method RunStatement(call: Call, sid: Sid, stmt: Stmt)
      requires Valid() && At(View(), call, ExecHolds(sid, stmt))
      modifies this
      ensures Undecided(call) && HasRun(call, sid, stmt)
    {
      Others(Caller(call));
      Locks();
      var t, outcome := txns[sid], Failed;
      if stmt.Query? || sem.signed(t.content, t.db, stmt.w) { outcome := Execute(sem, t.db, t.content, stmt); }
      calls := calls[call := ExecRan(sid, stmt, outcome)];
      Record(ExecRun(call, sid));
    }

    /** The statement turned the session's content into what it is now, with this reply, and left the heads alone. */
    ghost predicate HasDone(before: State, sid: Sid, stmt: Stmt, reply: Option<string>)
      reads this
    {
      && sid in before.txns && sid in txns && head == before.head
      && Does(sem, txns[sid].db, before.txns[sid].content, stmt, txns[sid].content, reply)
    }

    /**
     The last step stored the statement's result. The reply is that of the statement on the head BEGIN loaded after the
     session's earlier statements, and the content now includes it; both are what the statement itself says, which for
     an unsigned write is no reply and no change.
     */
    ghost predicate JustAnswered(call: Call, sid: Sid, stmt: Stmt, reply: Option<string>)
      reads this
    {
      && Valid() && trace != [] && trace[|trace| - 1] == ExecStore(call, sid, stmt) && sid in txns
      && ReplyIs(sem, history, trace, |trace| - 1, sid, stmt, reply)
      && ContentIs(sem, history, trace, |trace|, sid, txns[sid].db, txns[sid].content)
      && HasDone(history[|trace| - 1], sid, stmt, reply)
    }

    lemma {:induction false} Answered(call: Call, sid: Sid, stmt: Stmt, reply: Option<string>)
      requires Valid() && trace != [] && trace[|trace| - 1] == ExecStore(call, sid, stmt)
      requires var s := history[|trace| - 1];
        call in s.pcs && s.pcs[call].ExecRan? && reply == ReplyOf(s.pcs[call].outcome)
      ensures JustAnswered(call, sid, stmt, reply)
    {
      assert StepAt(sem, history, trace, |trace| - 1);
      ReplyIsThat(sem, history, trace, call, sid, stmt);
      var _, _ := ContentIsFold(sem, history, trace, |trace|, sid);
      Did(call, sid, stmt);
    }

    lemma {:induction false} Did(call: Call, sid: Sid, stmt: Stmt)
      requires Valid() && trace != [] && trace[|trace| - 1] == ExecStore(call, sid, stmt)
      ensures var s := history[|trace| - 1];
        call in s.pcs && s.pcs[call].ExecRan? && HasDone(s, sid, stmt, ReplyOf(s.pcs[call].outcome))
    {
      StoredStatementDoes(sem, history, trace, |trace| - 1);
      SessionInRun(sem, history, trace, |trace| - 1, sid);
    }

    /** Stores the new content, unless the statement failed, and gives the session's mutex back. */
    method StoreResult(call: Call, sid: Sid, stmt: Stmt) returns (reply: Option<string>)
      requires Valid() && HasRun(call, sid, stmt)
      modifies this
      ensures Grown() && |old(trace)| < |trace| && JustAnswered(call, sid, stmt, reply)
    {
      Others(Caller(call));
      Locks();
      var t := txns[sid];
      match calls[call].outcome {
        case Done(content, r) =>
          t := t.(content := content);
          reply := Some(r);
        case Failed => reply := None;
      }
      txns, calls := txns[sid := t.(holder := None)], calls - {call};
      Record(ExecStore(call, sid, stmt));
      Answered(call, sid, stmt, reply);
    }

    /** The locked section of a statement. */
    method RunAndStore(call: Call, sid: Sid, stmt: Stmt) returns (reply: Option<string>)
      requires Valid() && At(View(), call, ExecHolds(sid, stmt))
      modifies this
      ensures Grown() && |old(trace)| < |trace| && JustAnswered(call, sid, stmt, reply)
    {
      RunStatement(call, sid, stmt);
      reply := StoreResult(call, sid, stmt);
    }

    /** A statement in a transaction, with whatever other calls do between its steps. */
    method ExecuteInTransaction(call: Call, sid: Sid, stmt: Stmt) returns (r: Answer<Option<string>>)
      requires Valid() && call !in calls
      modifies this
      ensures if r.Replied? then JustAnswered(call, sid, stmt, r.value) else Undecided(call)
      ensures Grown() && (r.Replied? ==> |old(trace)| < |trace|)
      ensures r.NotFound? ==> sid !in transactions && Later(Caller(call))
    {
      var entered := EnterForExecute(call, sid, stmt);
      if entered.NotFound? { return NotFound; }
      if entered.Waiting? { return Waiting; }
      var reply := RunAndStore(call, sid, stmt);
      r := Replied(reply);
    }

    // ------------------------------------------------------------ COMMIT

    /** Looks the session up under the dispatcher's mutex and removes it, so that no second COMMIT finds it. */
    method FindForCommit(call: Call, sid: Sid) returns (r: Answer<()>)
      requires Valid() && call !in calls
      modifies this
      ensures Undecided(call)
      ensures if r.Replied? then At(View(), call, CommitFound(sid)) else Later(Caller(call))
      ensures r.NotFound? ==> sid !in transactions
    {
      Others(Caller(call));
      if mutex.Some? { return Waiting; }
      if sid !in transactions { return NotFound; }
      Locks();
      transactions, calls := transactions - {sid}, calls[call := CommitFound(sid)];
      Record(CommitLookup(call, sid));
      r := Replied(());
    }

    /** Takes the session's mutex. */
    method LockForCommit(call: Call, sid: Sid) returns (ok: bool)
      requires Valid() && At(View(), call, CommitFound(sid))
      modifies this
      ensures Undecided(call)
      ensures ok ==> At(View(), call, CommitHolds(sid))
    {
      Others(Caller(call));
      Locks();
      if txns[sid].holder.Some? { return false; }
      txns := txns[sid := txns[sid].(holder := Some(call))];
      calls := calls[call := CommitHolds(sid)];
      Record(CommitLock(call, sid));
      ok := true;
    }

    /** Removes the session from the map and takes its mutex. */
    method EnterForCommit(call: Call, sid: Sid) returns (r: Answer<()>)
      requires Valid() && call !in calls
      modifies this
      ensures Undecided(call)
      ensures r.Replied? ==> At(View(), call, CommitHolds(sid))
      ensures r.NotFound? ==> sid !in transactions && Later(Caller(call))
    {
      r := FindForCommit(call, sid);
      if r.Replied? {
        var locked := LockForCommit(call, sid);
        if !locked { r := Waiting; }
      }
    }

    /** The session was dropped; it has published nothing, and by DroppedPublishesNothing it never will. */
    ghost predicate IsDropped(sid: Sid)
      reads this
    {
      Valid() && sid !in transactions && Dropped(trace, sid, |trace|) && !Published(trace, sid, |trace|)
    }

    lemma {:induction false} DroppedForGood(sid: Sid)
      requires Valid() && Dropped(trace, sid, |trace|)
      ensures IsDropped(sid)
    {
      CommitsInEveryState(sem, history, trace, |trace|);
      var a :| 0 <= a < |trace| && Drops(trace[a], sid);
      forall b | 0 <= b < |trace| ensures !Publishes(trace[b], sid) {
        DroppedPublishesNothing(sem, history, trace, a, b, sid);
      }
    }

    /** The session's content becomes an object of the store, unless saving it fails, which ends the session. */
    method SaveContent(call: Call, sid: Sid) returns (final: Option<Content>)
      requires Valid() && At(View(), call, CommitHolds(sid))
      modifies this
      ensures Undecided(call)
      ensures if final.Some? then At(View(), call, CommitSaved(sid, final.value)) else IsDropped(sid) && call !in calls
    {
      Others(Caller(call));
      Locks();
      var saved: bool := *;
      if saved {
        final := Some(txns[sid].content);
        calls := calls[call := CommitSaved(sid, final.value)];
        Record(CommitSave(call, sid));
      } else {
        final := None;
        txns, calls := txns[sid := txns[sid].(holder := None)], calls - {call};
        Record(CommitFail(call, sid));
        assert Drops(trace[|trace| - 1], sid);
        DroppedForGood(sid);
      }
    }

    /**
     The last step published the session, for the only time. The head is now the head BEGIN loaded after the session's
     statements, and the heads of other databases are as they were.
     */
    ghost predicate JustPublished(call: Call, sid: Sid, final: Content)
      reads this
    {
      && Valid() && trace != [] && trace[|trace| - 1] == CommitPublish(call, sid) && sid in txns
      && head == history[|trace| - 1].head[txns[sid].db := final]
      && ContentIs(sem, history, trace, |trace| - 1, sid, txns[sid].db, final)
      && !Published(trace, sid, |trace| - 1)
    }

    lemma {:induction false} PublishedNow(call: Call, sid: Sid, final: Content)
      requires Valid() && trace != [] && trace[|trace| - 1] == CommitPublish(call, sid)
      requires At(history[|trace| - 1], call, CommitSaved(sid, final))
      ensures JustPublished(call, sid, final)
    {
      var n := |trace| - 1;
      assert StepAt(sem, history, trace, n);
      LocksInEveryState(sem, history, trace, n);
      var _, _ := ContentIsFold(sem, history, trace, n, sid);
      CommitsInEveryState(sem, history, trace, n);
    }

    /** The saved object becomes the head, whatever the head is by now. */
    method PublishHead(call: Call, sid: Sid, final: Content)
      requires Valid() && At(View(), call, CommitSaved(sid, final))
      modifies this
      ensures Grown() && |old(trace)| < |trace| && JustPublished(call, sid, final)
    {
      Others(Caller(call));
      Locks();
      head := head[txns[sid].db := final];
      txns, calls := txns[sid := txns[sid].(holder := None)], calls - {call};
      Record(CommitPublish(call, sid));
      PublishedNow(call, sid, final);
    }

    /** COMMIT, with whatever other calls do between its steps; it replies nothing when saving fails. */
    method CommitTransaction(call: Call, sid: Sid) returns (r: Answer<Option<Content>>)
      requires Valid() && call !in calls
      modifies this
      ensures Grown()
      ensures if r.Replied? && r.value.Some? then JustPublished(call, sid, r.value.value) && |old(trace)| < |trace|
              else Undecided(call)
      ensures r.Replied? && r.value.None? ==> IsDropped(sid)
      ensures r.NotFound? ==> sid !in transactions && Later(Caller(call))
    {
      var entered := EnterForCommit(call, sid);
      if entered.NotFound? { return NotFound; }
      if entered.Waiting? { return Waiting; }
      var final := SaveContent(call, sid);
      if final.Some? { PublishHead(call, sid, final.value); }
      r := Replied(final);
    }

    // -------------------------------------------- ROLLBACK and clean-up

    /** ROLLBACK: the session is removed. */
    method RollbackTransaction(sid: Sid) returns (r: Answer<()>)
      requires Valid()
      modifies this
      ensures Grown()
      ensures r.Replied? ==> |old(trace)| < |trace| && IsDropped(sid)
      ensures r.NotFound? ==> sid !in transactions
    {
      Others(Nobody);
      if mutex.Some? { return Waiting; }
      if sid !in transactions { return NotFound; }
      transactions := transactions - {sid};
      Record(Rollback(sid));
      assert Drops(trace[|trace| - 1], sid);
      DroppedForGood(sid);
      r := Replied(());
    }

    /** The loop over the sessions, in any order, with the dispatcher's mutex held throughout. */
    method Sweep(stale: set<Sid>)
      requires Valid() && mutex.None?
      modifies this
      ensures Grown() && View() == old(View()).(live := old(transactions) - stale)
      ensures forall i :: |old(trace)| <= i < |trace| ==> trace[i].Cleanup? && trace[i].sid in old(transactions) * stale
      ensures forall sid :: sid in old(transactions) * stale ==> IsDropped(sid)
    {
      var rest := transactions;
      while rest != {}
        invariant Grown() && rest <= old(transactions)
        invariant View() == old(View()).(live := transactions)
        invariant transactions == old(transactions) - (stale - rest)
        invariant forall i :: |old(trace)| <= i < |trace| ==>
          trace[i].Cleanup? && trace[i].sid in old(transactions) * stale
        invariant forall sid :: sid in old(transactions) * stale && sid !in rest ==> Dropped(trace, sid, |trace|)
        decreases rest
      {
        var sid :| sid in rest;
        if sid in stale { Clean(sid); }
        rest := rest - {sid};
      }
      forall sid | sid in old(transactions) * stale ensures IsDropped(sid) { DroppedForGood(sid); }
    }

    /** One session taken for stale. */
    method Clean(sid: Sid)
      requires Valid() && mutex.None? && sid in transactions
      modifies this
      ensures Valid() && trace == old(trace) + [Cleanup(sid)] && history == old(history) + [View()]
      ensures View() == old(View()).(live := old(transactions) - {sid})
      ensures forall x :: x == sid || Dropped(old(trace), x, |old(trace)|) ==> Dropped(trace, x, |trace|)
    {
      transactions := transactions - {sid};
      Record(Cleanup(sid));
      assert Drops(trace[|trace| - 1], sid);
      forall x | Dropped(old(trace), x, |old(trace)|) ensures Dropped(trace, x, |trace|) {
        var i :| 0 <= i < |old(trace)| && Drops(old(trace)[i], x);
        assert Drops(trace[i], x);
      }
    }

    /**
     One round of the clean-up, over the sessions it takes for stale. From the state in which it gets the mutex it
     removes exactly those, by Cleanup steps, and changes nothing else.
     */
    method CleanupStaleTransactions(stale: set<Sid>) returns (ok: bool, ghost start: nat)
      requires Valid()
      modifies this
      ensures Grown() && |old(trace)| <= start <= |trace|
      ensures ok ==> View() == history[start].(live := history[start].live - stale)
      ensures ok ==> forall i :: start <= i < |trace| ==>
        trace[i].Cleanup? && trace[i].sid in history[start].live * stale
      ensures ok ==> forall sid :: sid in history[start].live * stale ==> IsDropped(sid)
      ensures !ok ==> mutex.Some?
    {
      Others(Nobody);
      start := |trace|;
      if mutex.Some? { return false, start; }
      Sweep(stale);
      ok := true;
    }

    // ---------------------------------------------------- the write queue

    /**
     Every job put in the database's queue is finished, in hand or still waiting, in the order they came: the queue is
     first in, first out, and loses nothing.
     */
    ghost predicate InOrder(db: Db)
      reads this
    {
      && Valid()
      && Enqueued(trace, db, |trace|)
         == Finished(trace, db, |trace|) + InHand(WorkerOf(View(), db)) + QueueOf(View(), db)
    }

    /** A write outside a transaction: finds the queue under the mutex and then, without it, puts the job in. */
    method Dispatch(db: Db, job: Stmt) returns (ok: bool)
      requires Valid()
      modifies this
      ensures Grown()
      ensures ok ==> InOrder(db) && |old(trace)| < |trace| && trace[|trace| - 1] == Enqueue(db, job)
      ensures ok ==> QueueOf(View(), db) == QueueOf(history[|trace| - 1], db) + [job]
      ensures !ok ==> mutex.Some? || |QueueOf(View(), db)| >= QUEUE_SIZE
    {
      Others(Nobody);
      if mutex.Some? { return false; }
      Others(Nobody);
      if |QueueOf(View(), db)| >= QUEUE_SIZE { return false; }
      queues := queues[db := QueueOf(View(), db) + [job]];
      Record(Enqueue(db, job));
      QueueIsFirstInFirstOut(sem, history, trace, |trace|, db);
      ok := true;
    }

    /** The worker takes the next job, if there is one. */
    method TakeJob(db: Db) returns (r: Answer<Stmt>)
      requires Valid() && WorkerOf(View(), db).Idle?
      modifies this
      ensures Grown()
      ensures if r.Replied? then WorkerOf(View(), db) == Took(r.value) else QueueOf(View(), db) == []
    {
      Others(WorkerOn(db));
      var queue := QueueOf(View(), db);
      if queue == [] { return Waiting; }
      workers := workers[db := Took(queue[0])];
      queues := queues[db := queue[1..]];
      Record(WorkTake(db));
      r := Replied(queue[0]);
    }

    /** The worker loads the database, unless it is unknown. */
    method LoadForJob(db: Db, job: Stmt) returns (ok: bool)
      requires Valid() && WorkerOf(View(), db) == Took(job)
      modifies this
      ensures Grown() && ok == (db in head)
      ensures if ok then WorkerOf(View(), db).Loaded? && WorkerOf(View(), db).job == job
              else WorkerOf(View(), db) == Took(job)
    {
      Others(WorkerOn(db));
      if db !in head { return false; }
      workers := workers[db := Loaded(job, head[db])];
      Record(WorkLoad(db));
      ok := true;
    }

    /** The last step finished a job of the database, with this reply, in its turn. */
    ghost predicate JustFinished(db: Db, reply: Option<string>)
      reads this
    {
      && InOrder(db) && WorkerOf(View(), db).Idle?
      && trace != [] && trace[|trace| - 1].WorkDone? && trace[|trace| - 1].db == db
      && JobDone(sem, history, trace, |trace| - 1, db, trace[|trace| - 1].job, reply)
      && JobMeans(sem, history, trace, |trace| - 1, db, trace[|trace| - 1].job, reply)
    }

    lemma {:induction false} FinishedNow(db: Db, job: Stmt)
      requires Valid() && trace != [] && trace[|trace| - 1] == WorkDone(db, job)
      ensures JustFinished(db, ReplyOfJob(sem, history[|trace| - 1], db, job))
    {
      assert StepAt(sem, history, trace, |trace| - 1);
      JobsRunOnLoadedHeads(sem, history, trace, |trace| - 1);
      FinishedJobDoes(sem, history, trace, |trace| - 1, db, job, ReplyOfJob(sem, history[|trace| - 1], db, job));
      QueueIsFirstInFirstOut(sem, history, trace, |trace|, db);
    }

    /** Runs the job and, if it was a write that succeeded, makes its result the head. */
    method EndJob(db: Db, job: Stmt) returns (reply: Option<string>)
      requires Valid() && WorkerOf(View(), db).Loaded? && WorkerOf(View(), db).job == job
      modifies this
      ensures Valid() && trace == old(trace) + [WorkDone(db, job)] && history == old(history) + [View()]
      ensures reply == ReplyOfJob(sem, old(View()), db, job)
    {
      var outcome := Execute(sem, db, workers[db].content, job);
      workers := workers[db := Idle];
      reply := None;
      if outcome.Done? {
        if job.Write? { head := head[db := outcome.content]; }
        reply := Some(outcome.reply);
      }
      Record(WorkDone(db, job));
    }

    /** The worker runs the job it has loaded the database for. */
    method FinishJob(db: Db, job: Stmt) returns (reply: Option<string>)
      requires Valid() && WorkerOf(View(), db).Loaded? && WorkerOf(View(), db).job == job
      modifies this
      ensures Grown() && |old(trace)| < |trace| && JustFinished(db, reply)
    {
      Others(WorkerOn(db));
      reply := EndJob(db, job);
      FinishedNow(db, job);
    }

    /** A job for an unknown database fails. */
    method FailJob(db: Db, job: Stmt) returns (reply: Option<string>)
      requires Valid() && WorkerOf(View(), db) == Took(job) && db !in head
      modifies this
      ensures Grown() && |old(trace)| < |trace| && JustFinished(db, reply)
    {
      workers := workers[db := Idle];
      Record(WorkDone(db, job));
      FinishedNow(db, job);
      reply := None;
    }

    /** One round of the database's worker. */
    method RunJob(db: Db) returns (r: Answer<Option<string>>)
      requires Valid() && WorkerOf(View(), db).Idle?
      modifies this
      ensures Grown()
      ensures if r.Replied? then |old(trace)| < |trace| && JustFinished(db, r.value) else QueueOf(View(), db) == []
    {
      var taken := TakeJob(db);
      if !taken.Replied? { return Waiting; }
      var reply;
      var loaded := LoadForJob(db, taken.value);
      if loaded {
        reply := FinishJob(db, taken.value);
      } else {
        reply := FailJob(db, taken.value);
      }
      r := Replied(reply);
    }
  }
}
