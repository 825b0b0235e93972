/**
 What a statement does to the data, in a session and in the write queue, said of the meaning of statements directly: a
 query changes nothing, a write needs the owner's signature, and nothing else ever changes a database.
 */
module Signatures {
  import opened Options
  import opened Transactions
  import opened TransactionSafety
  import Serializability

  /** The write is signed by the owner for this content, succeeds on it, and makes `c'` of it. */
  predicate Makes(sem: Sem, db: Db, c: Content, w: WriteText, c': Content) {
    sem.signed(c, db, w) && sem.write(c, w).Some? && sem.write(c, w).value.0 == c'
  }

  /**
   A statement turns `c` into `c'` with this reply. A query answers and changes nothing. A signed write that succeeds
   gives its own content and reply; an unsigned one, or one that fails, changes nothing and has no reply.
   */
  predicate Does(sem: Sem, db: Db, c: Content, stmt: Stmt, c': Content, reply: Option<string>) {
    match stmt
    case Query(q) => c' == c && reply == sem.query(c, q)
    case Write(w) =>
      if sem.signed(c, db, w) && sem.write(c, w).Some?
      then Makes(sem, db, c, w, c') && reply == Some(sem.write(c, w).value.1)
      else c' == c && reply == None
  }

  // ------------------------------------------------------- in a session

  /**
   The step that stores a statement's result: content and reply are the statement's own, and no head and no other
   session changes.
   */
  lemma {:induction false} StoredStatementDoes(sem: Sem, states: seq<State>, events: seq<Event>, i: nat)
    requires IsRun(sem, states, events) && i < |events| && events[i].ExecStore?
    ensures var e, s, s' := events[i], states[i], states[i + 1];
      && e.sid in s.txns && e.sid in s'.txns && e.call in s.pcs && s.pcs[e.call].ExecRan?
      && Does(sem, s.txns[e.sid].db, s.txns[e.sid].content, e.stmt, s'.txns[e.sid].content,
              ReplyOf(s.pcs[e.call].outcome))
      && s'.head == s.head
      && forall sid :: sid in s.txns && sid != e.sid ==> sid in s'.txns && s'.txns[sid] == s.txns[sid]
  {
    LocksInEveryState(sem, states, events, i);
    assert StepAt(sem, states, events, i);
  }

  /** The same of a reply as the theorems about sessions state it. */
  lemma {:induction false} SessionReplyDoes(
    sem: Sem, states: seq<State>, events: seq<Event>, i: nat, sid: Sid, stmt: Stmt, reply: Option<string>)
    requires IsRun(sem, states, events) && i < |events| && events[i].ExecStore?
    requires events[i].sid == sid && events[i].stmt == stmt && ReplyIs(sem, states, events, i, sid, stmt, reply)
    ensures sid in states[i].txns && sid in states[i + 1].txns
    ensures var t := states[i].txns[sid]; Does(sem, t.db, t.content, stmt, states[i + 1].txns[sid].content, reply)
  {
    StoredStatementDoes(sem, states, events, i);
    var j: nat, k: nat :| k < i && Begins(events, sid, j, k) &&
      var db := events[j].db;
      && db in states[j].head
      && reply == ReplyOf(Execute(sem, db, Fold(sem, db, states[j].head[db], Statements(events, sid, i)), stmt));
    var j', k' := RepliesFollowTheFold(sem, states, events, i, sid);
    Serializability.BeginIsUnique(sem, states, events, sid, j, k, j', k');
  }

  /** An unsigned write in a session is refused: no reply, and content and heads as they were. */
  lemma {:induction false} UnsignedStatementIsRefused(
    sem: Sem, states: seq<State>, events: seq<Event>, i: nat, w: WriteText)
    requires IsRun(sem, states, events) && i < |events| && events[i].ExecStore? && events[i].stmt == Write(w)
    requires events[i].sid in states[i].txns
    requires var t := states[i].txns[events[i].sid]; !sem.signed(t.content, t.db, w)
    ensures var e, s, s' := events[i], states[i], states[i + 1];
      && e.sid in s'.txns && s'.txns[e.sid].content == s.txns[e.sid].content && s'.head == s.head
      && e.call in s.pcs && s.pcs[e.call].ExecRan? && ReplyOf(s.pcs[e.call].outcome) == None
  {
    StoredStatementDoes(sem, states, events, i);
  }

  /** A session's content changes only by a signed write that succeeds, to what that write makes of it. */
  lemma {:induction false} ContentChangesAreSigned(sem: Sem, states: seq<State>, events: seq<Event>, i: nat, sid: Sid)
    requires IsRun(sem, states, events) && i < |events| && sid in states[i].txns
    ensures sid in states[i + 1].txns
    ensures var t, c' := states[i].txns[sid], states[i + 1].txns[sid].content;
      c' != t.content ==>
        var e := events[i];
        e.ExecStore? && e.sid == sid && e.stmt.Write? && Makes(sem, t.db, t.content, e.stmt.w, c')
  {
    SessionInRun(sem, states, events, i, sid);
    if events[i].ExecStore? { StoredStatementDoes(sem, states, events, i); }
  }

  // ---------------------------------------------------- in the write queue

  /**
   A finished job: on the content `c` its worker loaded it does what the statement does, and its content becomes the
   head if it is a write that succeeds. No session changes.
   */
  ghost predicate JobDoes(
    sem: Sem, states: seq<State>, i: nat, db: Db, c: Content, job: Stmt, reply: Option<string>)
    requires i + 1 < |states|
  {
    exists c' :: Does(sem, db, c, job, c', reply) &&
      states[i + 1].head == if job.Write? && reply.Some? then states[i].head[db := c'] else states[i].head
  }

  /** A job does so on the head its worker loaded last; a job for an unknown database does nothing. */
  ghost predicate JobMeans(
    sem: Sem, states: seq<State>, events: seq<Event>, i: nat, db: Db, job: Stmt, reply: Option<string>)
    requires i < |events| < |states|
  {
    if db !in states[i].head then reply == None && states[i + 1].head == states[i].head
    else
      exists l: nat ::
        LoadsFor(states, events, l, i, db) && JobDoes(sem, states, i, db, states[l].head[db], job, reply)
  }

  lemma {:induction false} FinishedJobDoes(
    sem: Sem, states: seq<State>, events: seq<Event>, i: nat, db: Db, job: Stmt, reply: Option<string>)
    requires IsRun(sem, states, events) && i < |events| && events[i] == WorkDone(db, job)
    requires JobDone(sem, states, events, i, db, job, reply)
    ensures states[i + 1].txns == states[i].txns && JobMeans(sem, states, events, i, db, job, reply)
  {
    assert StepAt(sem, states, events, i);
    if db in states[i].head {
      var l: nat :| LoadsFor(states, events, l, i, db) && Gives(sem, states, i, db, states[l].head[db], job, reply);
      GivesDoes(sem, states, i, db, states[l].head[db], job, reply);
    }
  }

  lemma {:induction false} GivesDoes(
    sem: Sem, states: seq<State>, i: nat, db: Db, c: Content, job: Stmt, reply: Option<string>)
    requires i + 1 < |states| && Gives(sem, states, i, db, c, job, reply)
    ensures JobDoes(sem, states, i, db, c, job, reply)
  {
    var c' :=
      if job.Write? && sem.signed(c, db, job.w) && sem.write(c, job.w).Some? then sem.write(c, job.w).value.0 else c;
    assert Does(sem, db, c, job, c', reply);
  }

  /** One load, one content: the worker's own. */
  lemma {:induction false} LoadIsUnique(states: seq<State>, events: seq<Event>, l: nat, l': nat, i: nat, db: Db)
    requires i < |events| < |states| && LoadsFor(states, events, l, i, db) && LoadsFor(states, events, l', i, db)
    ensures l == l'
  {
  }

  /** An unsigned job is refused: no reply, and the heads as they were. */
  lemma {:induction false} UnsignedJobIsRefused(
    sem: Sem, states: seq<State>, events: seq<Event>, i: nat, l: nat, db: Db, w: WriteText, reply: Option<string>)
    requires IsRun(sem, states, events) && i < |events| && events[i] == WorkDone(db, Write(w))
    requires JobDone(sem, states, events, i, db, Write(w), reply) && LoadsFor(states, events, l, i, db)
    requires !sem.signed(states[l].head[db], db, w)
    ensures reply == None && states[i + 1].head == states[i].head && states[i + 1].txns == states[i].txns
  {
    FinishedJobDoes(sem, states, events, i, db, Write(w), reply);
    if db in states[i].head {
      var l': nat :|
        LoadsFor(states, events, l', i, db) && JobDoes(sem, states, i, db, states[l'].head[db], Write(w), reply);
      LoadIsUnique(states, events, l, l', i, db);
    }
  }

  /**
   A head changes only as a session of the database publishes its content, or as the worker finishes a signed write that
   succeeds, to what that write makes of the content the worker loaded.
   */
  lemma {:induction false} HeadChangesAreSigned(sem: Sem, states: seq<State>, events: seq<Event>, i: nat, db: Db)
    requires IsRun(sem, states, events) && i < |events| && db in states[i].head
    ensures db in states[i + 1].head
    ensures var e, c' := events[i], states[i + 1].head[db];
      c' != states[i].head[db] ==>
        || (e.CommitPublish? && e.sid in states[i].txns && states[i].txns[e.sid] == Txn(db, c', Some(e.call)))
        || (e.WorkDone? && e.db == db && e.job.Write? &&
            exists l: nat :: LoadsFor(states, events, l, i, db) && Makes(sem, db, states[l].head[db], e.job.w, c'))
  {
    OnlyCommitsAndWorkersMoveTheHead(sem, states, events, i, db);
    assert StepAt(sem, states, events, i);
    LocksInEveryState(sem, states, events, i);
    var e := events[i];
    if e.WorkDone? && states[i + 1].head[db] != states[i].head[db] {
      JobsRunOnLoadedHeads(sem, states, events, i);
      var reply := ReplyOfJob(sem, states[i], e.db, e.job);
      FinishedJobDoes(sem, states, events, i, e.db, e.job, reply);
      var l: nat :| LoadsFor(states, events, l, i, db) && JobDoes(sem, states, i, db, states[l].head[db], e.job, reply);
    }
  }

  // ------------------------------------------------ where all data comes from

  /** `ws` are signed writes that lead, one after another, from the first content to this one. */
  ghost predicate Leads(sem: Sem, db: Db, first: Content, ws: seq<WriteText>, c: Content) {
    if ws == [] then c == first
    else
      var n := |ws| - 1;
      exists before :: Leads(sem, db, first, ws[..n], before) && Makes(sem, db, before, ws[n], c)
  }

  /** The content was made from the first one by signed writes only. */
  ghost predicate Authorised(sem: Sem, db: Db, first: Content, c: Content) {
    exists ws :: Leads(sem, db, first, ws, c)
  }

  lemma {:induction false} OneMoreWrite(sem: Sem, db: Db, first: Content, c: Content, w: WriteText, c': Content)
    requires Authorised(sem, db, first, c) && Makes(sem, db, c, w, c')
    ensures Authorised(sem, db, first, c')
  {
    var ws :| Leads(sem, db, first, ws, c);
    assert (ws + [w])[..|ws|] == ws;
    assert Leads(sem, db, first, ws + [w], c');
  }

  /** No step brings in a database. */
  lemma {:induction false} HeadsOnlyStay(sem: Sem, states: seq<State>, events: seq<Event>, i: nat, db: Db)
    requires IsRun(sem, states, events) && i < |events| && db in states[i + 1].head
    ensures db in states[i].head
  {
    assert StepAt(sem, states, events, i);
    var s, e := states[i], events[i];
    if e.CommitPublish? {
      var j, k := CommitPublishesFold(sem, states, events, i, e.sid);
      HeadsStay(sem, states, events, j, i, events[j].db);
    } else if e.WorkDone? && WorkerOf(s, e.db).Loaded? {
      var l := LoadOrigin(sem, states, events, i, e.db);
      HeadsStay(sem, states, events, l, i, e.db);
    }
  }

  /** The content of every session of every reachable state was made from a first head by signed writes only. */
  lemma {:induction false} SessionsAreAuthorised(sem: Sem, states: seq<State>, events: seq<Event>, i: nat, sid: Sid)
    requires IsRun(sem, states, events) && i < |states| && sid in states[i].txns
    ensures var t := states[i].txns[sid];
      t.db in states[0].head && t.db in states[i].head && Authorised(sem, t.db, states[0].head[t.db], t.content)
    decreases i, 0
  {
    SessionInRun(sem, states, events, i - 1, sid);
    var t := states[i].txns[sid];
    if sid in states[i - 1].txns {
      SessionsAreAuthorised(sem, states, events, i - 1, sid);
      ContentChangesAreSigned(sem, states, events, i - 1, sid);
      var c := states[i - 1].txns[sid].content;
      if c != t.content { OneMoreWrite(sem, t.db, states[0].head[t.db], c, events[i - 1].stmt.w, t.content); }
      HeadsStay(sem, states, events, i - 1, i, t.db);
    } else {
      var j := BeginOrigin(sem, states, events, i - 1, events[i - 1].call);
      HeadsAreAuthorised(sem, states, events, j, t.db);
      HeadsStay(sem, states, events, j, i, t.db);
    }
  }

  /** And so was every head. */
  lemma {:induction false} HeadsAreAuthorised(sem: Sem, states: seq<State>, events: seq<Event>, i: nat, db: Db)
    requires IsRun(sem, states, events) && i < |states| && db in states[i].head
    ensures db in states[0].head && Authorised(sem, db, states[0].head[db], states[i].head[db])
    decreases i, 1
  {
    if i == 0 {
      assert Leads(sem, db, states[0].head[db], [], states[0].head[db]);
    } else {
      HeadsOnlyStay(sem, states, events, i - 1, db);
      HeadChangesAreSigned(sem, states, events, i - 1, db);
      var e, c := events[i - 1], states[i].head[db];
      if c == states[i - 1].head[db] {
        HeadsAreAuthorised(sem, states, events, i - 1, db);
      } else if e.CommitPublish? {
        SessionsAreAuthorised(sem, states, events, i - 1, e.sid);
      } else {
        var l: nat :| LoadsFor(states, events, l, i - 1, db) && Makes(sem, db, states[l].head[db], e.job.w, c);
        HeadsAreAuthorised(sem, states, events, l, db);
        OneMoreWrite(sem, db, states[0].head[db], states[l].head[db], e.job.w, c);
      }
    }
  }
}
