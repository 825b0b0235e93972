/**
 Transactions, write queues and the head of each database (pkg/rpc/server.go,
 pkg/core/database.go) as a system of interleaved steps. A step is one stretch of code
 that no other goroutine can see into: what runs between taking and giving back the
 dispatcher's mutex, or a single read or write of shared state while a transaction's
 mutex is held. Any number of calls, sessions and databases run at once.
 */
module Transactions {
  import opened Options

  type Sid = nat
  type Call = nat
  type Db = string

  /** The contents of a database, a query and a write statement with its signature: opaque here. */
  type Content(==, !new, 0)
  type QueryText(==, !new, 0)
  type WriteText(==, !new, 0)

  datatype Stmt = Query(q: QueryText) | Write(w: WriteText)

  /** A statement succeeds with a new content and a reply, or fails. */
  datatype Outcome = Done(content: Content, reply: string) | Failed

  /** What statements mean: evaluation, mutation, and whether a write is signed by the database's owner. */
  datatype Sem = Sem(
    query: (Content, QueryText) -> Option<string>,
    write: (Content, WriteText) -> Option<(Content, string)>,
    signed: (Content, Db, WriteText) -> bool)

  /** A statement on a content: a read returns the same content, a write needs a valid signature. */
  function Execute(sem: Sem, db: Db, c: Content, stmt: Stmt): Outcome {
    match stmt
    case Query(q) =>
      (match sem.query(c, q)
       case Some(reply) => Done(c, reply)
       case None => Failed)
    case Write(w) =>
      if !sem.signed(c, db, w) then Failed
      else
        match sem.write(c, w)
        case Some(r) => Done(r.0, r.1)
        case None => Failed
  }

  /** The content after a statement; a failed one changes nothing. */
  function After(sem: Sem, db: Db, c: Content, stmt: Stmt): Content {
    match Execute(sem, db, c, stmt)
    case Done(c', _) => c'
    case Failed => c
  }

  /** The content after a list of statements. */
  function Fold(sem: Sem, db: Db, c: Content, stmts: seq<Stmt>): Content {
    if stmts == [] then c
    else var n := |stmts| - 1; After(sem, db, Fold(sem, db, c, stmts[..n]), stmts[n])
  }

  // ----------------------------------------------------------- the state

  /** A transaction object and its mutex. It outlives its entry in the dispatcher's map. */
  datatype Txn = Txn(db: Db, content: Content, holder: Option<Call>)

  /** Where a call is. */
  datatype Pc =
    | BeginHolds(db: Db, loaded: Content)                          // has the dispatcher's mutex and the loaded content
    | ExecFound(sid: Sid, stmt: Stmt)                              // has looked the transaction up
    | ExecHolds(sid: Sid, stmt: Stmt)                              // has the transaction's mutex
    | ExecRan(sid: Sid, stmt: Stmt, outcome: Outcome)              // has the new content, not yet stored
    | CommitFound(sid: Sid)                                        // has removed the map entry
    | CommitHolds(sid: Sid)                                        // has the transaction's mutex
    | CommitSaved(sid: Sid, final: Content)                        // has saved the content, not yet published

  /** A database's single worker. */
  datatype Worker = Idle | Took(job: Stmt) | Loaded(job: Stmt, content: Content)

  datatype State = State(
    head: map<Db, Content>,
    live: set<Sid>,
    txns: map<Sid, Txn>,
    mutex: Option<Call>,
    pcs: map<Call, Pc>,
    queues: map<Db, seq<Stmt>>,
    workers: map<Db, Worker>)

  const QUEUE_SIZE := 100

  datatype Event =
    | BeginLoad(call: Call, db: Db)
    | BeginInsert(call: Call, sid: Sid)
    | ExecLookup(call: Call, sid: Sid, stmt: Stmt)
    | ExecLock(call: Call, sid: Sid)
    | ExecRun(call: Call, sid: Sid)
    | ExecStore(call: Call, sid: Sid, stmt: Stmt)
    | CommitLookup(call: Call, sid: Sid)
    | CommitLock(call: Call, sid: Sid)
    | CommitSave(call: Call, sid: Sid)
    | CommitFail(call: Call, sid: Sid)
    | CommitPublish(call: Call, sid: Sid)
    | Rollback(sid: Sid)
    | Cleanup(sid: Sid)
    | Enqueue(db: Db, job: Stmt)
    | WorkTake(db: Db)
    | WorkLoad(db: Db)
    | WorkDone(db: Db, job: Stmt)

  function QueueOf(s: State, db: Db): seq<Stmt> { if db in s.queues then s.queues[db] else [] }

  function WorkerOf(s: State, db: Db): Worker { if db in s.workers then s.workers[db] else Idle }

  predicate At(s: State, call: Call, pc: Pc) { call in s.pcs && s.pcs[call] == pc }

  predicate Unlocked(s: State, sid: Sid) { sid in s.txns && s.txns[sid].holder.None? }

  /** When a step can be taken. Lookups of a session that is not there return an error and change nothing. */
  predicate Enabled(s: State, e: Event) {
    match e
    case BeginLoad(call, db) => s.mutex.None? && call !in s.pcs && db in s.head
    case BeginInsert(call, sid) => call in s.pcs && s.pcs[call].BeginHolds? && sid !in s.txns
    case ExecLookup(call, sid, _) => s.mutex.None? && call !in s.pcs && sid in s.live && sid in s.txns
    case ExecLock(call, sid) => call in s.pcs && s.pcs[call].ExecFound? && s.pcs[call].sid == sid && Unlocked(s, sid)
    case ExecRun(call, sid) => call in s.pcs && s.pcs[call].ExecHolds? && s.pcs[call].sid == sid && sid in s.txns
    case ExecStore(call, sid, stmt) =>
      call in s.pcs && s.pcs[call].ExecRan? && s.pcs[call].sid == sid && s.pcs[call].stmt == stmt && sid in s.txns
    case CommitLookup(call, sid) => s.mutex.None? && call !in s.pcs && sid in s.live && sid in s.txns
    case CommitLock(call, sid) => At(s, call, CommitFound(sid)) && Unlocked(s, sid)
    case CommitSave(call, sid) => At(s, call, CommitHolds(sid)) && sid in s.txns
    case CommitFail(call, sid) => At(s, call, CommitHolds(sid)) && sid in s.txns
    case CommitPublish(call, sid) =>
      call in s.pcs && s.pcs[call].CommitSaved? && s.pcs[call].sid == sid && sid in s.txns
    case Rollback(sid) => s.mutex.None? && sid in s.live
    case Cleanup(sid) => s.mutex.None? && sid in s.live
    case Enqueue(db, _) => |QueueOf(s, db)| < QUEUE_SIZE
    case WorkTake(db) => QueueOf(s, db) != [] && WorkerOf(s, db).Idle?
    case WorkLoad(db) => WorkerOf(s, db).Took? && db in s.head
    case WorkDone(db, job) =>
      var w := WorkerOf(s, db);
      !w.Idle? && w.job == job && (w.Loaded? || db !in s.head)
  }

  function Apply(sem: Sem, s: State, e: Event): State
    requires Enabled(s, e)
  {
    match e
    case BeginLoad(call, db) => s.(mutex := Some(call), pcs := s.pcs[call := BeginHolds(db, s.head[db])])
    case BeginInsert(call, sid) =>
      var pc := s.pcs[call];
      s.(txns := s.txns[sid := Txn(pc.db, pc.loaded, None)], live := s.live + {sid}, mutex := None,
         pcs := s.pcs - {call})
    case ExecLookup(call, sid, stmt) => s.(pcs := s.pcs[call := ExecFound(sid, stmt)])
    case ExecLock(call, sid) =>
      s.(txns := s.txns[sid := s.txns[sid].(holder := Some(call))],
         pcs := s.pcs[call := ExecHolds(sid, s.pcs[call].stmt)])
    case ExecRun(call, sid) =>
      var stmt, t := s.pcs[call].stmt, s.txns[sid];
      s.(pcs := s.pcs[call := ExecRan(sid, stmt, Execute(sem, t.db, t.content, stmt))])
    case ExecStore(call, sid, _) =>
      var t, outcome := s.txns[sid], s.pcs[call].outcome;
      var content := if outcome.Done? then outcome.content else t.content;
      s.(txns := s.txns[sid := Txn(t.db, content, None)], pcs := s.pcs - {call})
    case CommitLookup(call, sid) => s.(live := s.live - {sid}, pcs := s.pcs[call := CommitFound(sid)])
    case CommitLock(call, sid) =>
      s.(txns := s.txns[sid := s.txns[sid].(holder := Some(call))], pcs := s.pcs[call := CommitHolds(sid)])
    case CommitSave(call, sid) => s.(pcs := s.pcs[call := CommitSaved(sid, s.txns[sid].content)])
    case CommitFail(call, sid) =>
      s.(txns := s.txns[sid := s.txns[sid].(holder := None)], pcs := s.pcs - {call})
    case CommitPublish(call, sid) =>
      var t := s.txns[sid];
      s.(head := s.head[t.db := s.pcs[call].final], txns := s.txns[sid := t.(holder := None)], pcs := s.pcs - {call})
    case Rollback(sid) => s.(live := s.live - {sid})
    case Cleanup(sid) => s.(live := s.live - {sid})
    case Enqueue(db, job) => s.(queues := s.queues[db := QueueOf(s, db) + [job]])
    case WorkTake(db) =>
      s.(queues := s.queues[db := QueueOf(s, db)[1..]], workers := s.workers[db := Took(QueueOf(s, db)[0])])
    case WorkLoad(db) => s.(workers := s.workers[db := Loaded(WorkerOf(s, db).job, s.head[db])])
    case WorkDone(db, job) =>
      s.(head := HeadsAfter(sem, s.head, db, WorkerOf(s, db), job), workers := s.workers[db := Idle])
  }

  /**
   A worker's write that succeeds becomes the head; a job for an unknown database was never loaded and does nothing.
   */
  function HeadsAfter(sem: Sem, head: map<Db, Content>, db: Db, w: Worker, job: Stmt): map<Db, Content> {
    if !w.Loaded? || !job.Write? then head
    else
      match Execute(sem, db, w.content, job)
      case Done(content, _) => head[db := content]
      case Failed => head
  }

  /** Nothing has begun; some databases exist. */
  predicate Init(s: State) {
    s.live == {} && s.txns == map[] && s.mutex.None? && s.pcs == map[] && s.queues == map[] && s.workers == map[]
  }

  ghost predicate IsRun(sem: Sem, states: seq<State>, events: seq<Event>) {
    && |states| == |events| + 1 && Init(states[0])
    && forall i :: 0 <= i < |events| ==> StepAt(sem, states, events, i)
  }

  ghost predicate StepAt(sem: Sem, states: seq<State>, events: seq<Event>, i: nat)
    requires i < |events| < |states|
  {
    Enabled(states[i], events[i]) && states[i + 1] == Apply(sem, states[i], events[i])
  }
}
