/** No call has to wait for ever: whoever holds a mutex can go on and give it back, and workers never get stuck. */
module Progress {
  import opened Options
  import opened Transactions
  import opened TransactionSafety
  import Serializability

  /** The step is one of the call's own. */
  predicate StepOf(e: Event, call: Call) {
    match e
    case Rollback(_) => false
    case Cleanup(_) => false
    case Enqueue(_, _) => false
    case WorkTake(_) => false
    case WorkLoad(_) => false
    case WorkDone(_, _) => false
    case _ => e.call == call
  }

  /** If the session's mutex is held, it is by a call that is in its locked section. */
  predicate HeldByCall(s: State, sid: Sid) {
    sid in s.txns && s.txns[sid].holder.Some? ==>
      var h := s.txns[sid].holder.value; h in s.pcs && Holds(s.pcs[h]) && s.pcs[h].sid == sid
  }

  ghost predicate HeldByCalls(s: State) { forall sid :: HeldByCall(s, sid) }

  lemma {:induction false} ExecKeepsHeld(sem: Sem, s: State, e: Event, sid: Sid)
    requires HoldersOk(s) && HeldByCall(s, sid) && Enabled(s, e)
    requires e.ExecLookup? || e.ExecLock? || e.ExecRun? || e.ExecStore?
    ensures HeldByCall(Apply(sem, s, e), sid)
  {
  }

  lemma {:induction false} CommitKeepsHeld(sem: Sem, s: State, e: Event, sid: Sid)
    requires HoldersOk(s) && HeldByCall(s, sid) && Enabled(s, e)
    requires e.CommitLookup? || e.CommitLock? || e.CommitSave? || e.CommitFail? || e.CommitPublish?
    ensures HeldByCall(Apply(sem, s, e), sid)
  {
  }

  lemma {:induction false} StepKeepsHeld(sem: Sem, s: State, e: Event, sid: Sid)
    requires HoldersOk(s) && HeldByCall(s, sid) && Enabled(s, e)
    ensures HeldByCall(Apply(sem, s, e), sid)
  {
    if e.ExecLookup? || e.ExecLock? || e.ExecRun? || e.ExecStore? {
      ExecKeepsHeld(sem, s, e, sid);
    } else if e.CommitLookup? || e.CommitLock? || e.CommitSave? || e.CommitFail? || e.CommitPublish? {
      CommitKeepsHeld(sem, s, e, sid);
    }
  }

  lemma {:induction false} HeldInEveryState(sem: Sem, states: seq<State>, events: seq<Event>, i: nat)
    requires IsRun(sem, states, events) && i < |states|
    ensures HeldByCalls(states[i])
  {
    if i > 0 {
      HeldInEveryState(sem, states, events, i - 1);
      LocksInEveryState(sem, states, events, i - 1);
      assert StepAt(sem, states, events, i - 1);
      forall sid ensures HeldByCall(states[i], sid) { StepKeepsHeld(sem, states[i - 1], events[i - 1], sid); }
    }
  }

  /** The step by which a call leaves its locked section, or comes closer to leaving it. */
  function NextOf(call: Call, pc: Pc): Event
    requires Holds(pc)
  {
    match pc
    case ExecHolds(sid, _) => ExecRun(call, sid)
    case ExecRan(sid, stmt, _) => ExecStore(call, sid, stmt)
    case CommitHolds(sid) => CommitSave(call, sid)
    case CommitSaved(sid, _) => CommitPublish(call, sid)
  }

  /** A call in a locked section can take its next step, and after two at the most the mutex is free. */
  lemma {:induction false} HolderGoesOn(s: State, call: Call)
    requires HoldersOk(s) && call in s.pcs && Holds(s.pcs[call])
    ensures Enabled(s, NextOf(call, s.pcs[call])) && StepOf(NextOf(call, s.pcs[call]), call)
  {
  }

  lemma {:induction false} LastStepUnlocks(sem: Sem, s: State, call: Call)
    requires HoldersOk(s) && call in s.pcs && (s.pcs[call].ExecRan? || s.pcs[call].CommitSaved?)
    ensures Enabled(s, NextOf(call, s.pcs[call])) && Unlocked(Apply(sem, s, NextOf(call, s.pcs[call])), s.pcs[call].sid)
  {
  }

  /** From every reachable state in which a session is locked, its holder alone can free it in two steps at the most. */
  lemma {:induction false} MutexIsGivenBack(sem: Sem, states: seq<State>, events: seq<Event>, sid: Sid, call: Call)
    returns (states': seq<State>, events': seq<Event>)
    requires IsRun(sem, states, events)
    requires var s := states[|events|]; sid in s.txns && s.txns[sid].holder == Some(call)
    ensures IsRun(sem, states', events') && states <= states' && events <= events' && |events'| <= |events| + 2
    ensures forall i :: |events| <= i < |events'| ==> StepOf(events'[i], call)
    ensures Unlocked(states'[|events'|], sid)
  {
    HeldInEveryState(sem, states, events, |events|);
    LocksInEveryState(sem, states, events, |events|);
    states', events' := states, events;
    var s := states[|events|];
    assert HeldByCall(s, sid);
    if s.pcs[call].ExecHolds? || s.pcs[call].CommitHolds? {
      HolderGoesOn(s, call);
      states', events' := Serializability.Then(sem, states, events, NextOf(call, s.pcs[call]));
      LocksInEveryState(sem, states', events', |events'|);
      s := states'[|events'|];
    }
    LastStepUnlocks(sem, s, call);
    states', events' := Serializability.Then(sem, states', events', NextOf(call, s.pcs[call]));
  }

  lemma {:induction false} FreshId(ids: set<Sid>) returns (sid: Sid)
    ensures sid !in ids && forall k :: k in ids ==> k < sid
  {
    sid := 0;
    var rest := ids;
    while rest != {}
      invariant forall k :: k in ids && k !in rest ==> k < sid
      decreases rest
    {
      var k :| k in rest;
      if k >= sid { sid := k + 1; }
      rest := rest - {k};
    }
  }

  /** The dispatcher's mutex, too, can be given back at any time by the call that holds it. */
  lemma {:induction false} DispatcherIsGivenBack(sem: Sem, states: seq<State>, events: seq<Event>, call: Call)
    returns (sid: Sid)
    requires IsRun(sem, states, events) && states[|events|].mutex == Some(call)
    ensures var s := states[|events|];
      Enabled(s, BeginInsert(call, sid)) && Apply(sem, s, BeginInsert(call, sid)).mutex.None?
  {
    LocksInEveryState(sem, states, events, |events|);
    sid := FreshId(states[|events|].txns.Keys);
  }

  /** What a call waits for: the holder of the session it has found. */
  ghost predicate WaitsFor(s: State, call: Call, h: Call) {
    && call in s.pcs && (s.pcs[call].ExecFound? || s.pcs[call].CommitFound?)
    && s.pcs[call].sid in s.txns && s.txns[s.pcs[call].sid].holder == Some(h)
  }

  ghost predicate CanStep(s: State, call: Call) { exists e :: Enabled(s, e) && StepOf(e, call) }

  /** There is no deadlock: a call that has begun can go on, or waits for one that can. */
  lemma {:induction false} NoDeadlock(sem: Sem, states: seq<State>, events: seq<Event>, i: nat, call: Call)
    requires IsRun(sem, states, events) && i < |states| && call in states[i].pcs
    ensures CanStep(states[i], call) || exists h :: WaitsFor(states[i], call, h) && CanStep(states[i], h)
  {
    var s := states[i];
    LocksInEveryState(sem, states, events, i);
    HeldInEveryState(sem, states, events, i);
    match s.pcs[call]
    case BeginHolds(_, _) =>
      var sid := FreshId(s.txns.Keys);
      assert Enabled(s, BeginInsert(call, sid)) && StepOf(BeginInsert(call, sid), call);
    case ExecFound(sid, _) => FoundGoesOn(s, call, ExecLock(call, sid));
    case CommitFound(sid) => FoundGoesOn(s, call, CommitLock(call, sid));
    case _ => HolderGoesOn(s, call);
  }

  lemma {:induction false} FoundGoesOn(s: State, call: Call, lock: Event)
    requires HoldersOk(s) && HeldByCalls(s) && call in s.pcs
    requires (s.pcs[call].ExecFound? && lock == ExecLock(call, s.pcs[call].sid))
          || (s.pcs[call].CommitFound? && lock == CommitLock(call, s.pcs[call].sid))
    ensures CanStep(s, call) || exists h :: WaitsFor(s, call, h) && CanStep(s, h)
  {
    var holder := s.txns[s.pcs[call].sid].holder;
    assert HeldByCall(s, s.pcs[call].sid);
    if holder.Some? {
      HolderGoesOn(s, holder.value);
      assert WaitsFor(s, call, holder.value) && CanStep(s, holder.value);
    } else {
      assert Enabled(s, lock) && StepOf(lock, call);
    }
  }

  /** As long as jobs are in the queue or in hand, the worker can go on. */
  lemma {:induction false} WorkerGoesOn(s: State, db: Db)
    requires QueueOf(s, db) != [] || !WorkerOf(s, db).Idle?
    ensures
      match WorkerOf(s, db)
      case Idle => Enabled(s, WorkTake(db))
      case Took(job) => Enabled(s, WorkLoad(db)) || Enabled(s, WorkDone(db, job))
      case Loaded(job, _) => Enabled(s, WorkDone(db, job))
  {
  }
}
