/**
 Exactly when UPDATE keeps what the UNIQUE indexes guarantee, and runs in which UPDATE and
 DELETE leave an index that no longer fits the rows.
 */
module TableUpdates {
  import opened Cells
  import opened Keys
  import opened ProllyTree
  import opened ProllyTreeContents
  import opened ProllyTreeRuns
  import opened Tables
  import opened TableRuns
  import Seqs

  // ------------------------------------------- the entries UPDATE leaves

  /** The change takes every pair of the key and its page's CID out of the column's index. */
  predicate Removes(env: Env, c: Change, col: string, k: Key) {
    col in c.was && IndexKey(env, c.was[col]) == k
  }

  /** The change puts one such pair in. */
  predicate Adds(env: Env, c: Change, col: string, k: Key) {
    col in c.now && IndexKey(env, c.now[col]) == k
  }

  /** Some change from the `i`-th on removes the pair. */
  ghost predicate RemovedFrom(env: Env, cs: seq<Change>, i: nat, col: string, k: Key, cid: Cid) {
    exists j :: i <= j < |cs| && Removes(env, cs[j], col, k) && cs[j].cid == cid
  }

  /** Some change adds the pair, and no later one removes it. */
  ghost predicate AddedToStay(env: Env, cs: seq<Change>, col: string, k: Key, cid: Cid) {
    exists i ::
      0 <= i < |cs| && Adds(env, cs[i], col, k) && cs[i].cid == cid && !RemovedFrom(env, cs, i + 1, col, k, cid)
  }

  lemma {:induction false} PutRowVals(env: Env, idx: Indexes, row: Row, cid: Cid, col: string, k: Key)
    requires Standing(idx) && col in idx
    ensures Vals(PutRow(env, idx, row, cid)[col], k) ==
      Vals(idx[col], k) + if col in row && IndexKey(env, row[col]) == k then [cid] else []
  {
    if col in row {
      ApplyVals(Intended, idx[col], PutOp(IndexKey(env, row[col]), cid), k);
    } else {
      Seqs.Empty(Vals(idx[col], k));
    }
  }

  lemma {:induction false} RemoveRowVals(env: Env, idx: Indexes, row: Row, cid: Cid, col: string, k: Key)
    requires Standing(idx) && col in idx
    ensures Vals(RemoveRow(env, idx, row, cid)[col], k) ==
      if col in row && IndexKey(env, row[col]) == k then Without(Vals(idx[col], k), cid) else Vals(idx[col], k)
  {
    if col in row { ApplyVals(Intended, idx[col], DeleteOp(IndexKey(env, row[col]), cid), k); }
  }

  /** One change: the pair is there if the change adds it, or if it was there and the change does not remove it. */
  lemma {:induction false} ChangeMember(env: Env, idx: Indexes, c: Change, col: string, k: Key, cid: Cid)
    requires Standing(idx) && col in idx
    ensures var removed := RemoveRow(env, idx, c.was, c.cid);
      cid in Vals(PutRow(env, removed, c.now, c.cid)[col], k)
      <==> (cid in Vals(idx[col], k) && !(Removes(env, c, col, k) && c.cid == cid))
           || (Adds(env, c, col, k) && c.cid == cid)
  {
    var removed := RemoveRow(env, idx, c.was, c.cid);
    PutRowVals(env, removed, c.now, c.cid, col, k);
    RemoveRowVals(env, idx, c.was, c.cid, col, k);
    WithoutMembers(Vals(idx[col], k), c.cid, cid);
  }

  lemma {:induction false} RemovedSnoc(env: Env, cs: seq<Change>, i: nat, col: string, k: Key, cid: Cid)
    requires i < |cs|
    ensures var n := |cs| - 1;
      RemovedFrom(env, cs, i, col, k, cid)
      <==> RemovedFrom(env, cs[..n], i, col, k, cid) || (Removes(env, cs[n], col, k) && cs[n].cid == cid)
  {
    var n := |cs| - 1;
    if j :| i <= j < |cs| && Removes(env, cs[j], col, k) && cs[j].cid == cid { assert j == n || cs[..n][j] == cs[j]; }
    if j :| i <= j < n && Removes(env, cs[..n][j], col, k) && cs[..n][j].cid == cid { assert cs[j] == cs[..n][j]; }
  }

  lemma {:induction false} AddedSnoc(env: Env, cs: seq<Change>, col: string, k: Key, cid: Cid)
    requires cs != []
    ensures var n := |cs| - 1;
      AddedToStay(env, cs, col, k, cid)
      <==> (AddedToStay(env, cs[..n], col, k, cid) && !(Removes(env, cs[n], col, k) && cs[n].cid == cid))
           || (Adds(env, cs[n], col, k) && cs[n].cid == cid)
  {
    var n := |cs| - 1;
    var init := cs[..n];
    if i :| 0 <= i < |cs| && Adds(env, cs[i], col, k) && cs[i].cid == cid && !RemovedFrom(env, cs, i + 1, col, k, cid) {
      if i < n {
        RemovedSnoc(env, cs, i + 1, col, k, cid);
        assert init[i] == cs[i];
      }
    }
    if i :|
      0 <= i < n && Adds(env, init[i], col, k) && init[i].cid == cid && !RemovedFrom(env, init, i + 1, col, k, cid)
    {
      RemovedSnoc(env, cs, i + 1, col, k, cid);
      assert init[i] == cs[i];
    }
    assert !RemovedFrom(env, cs, n + 1, col, k, cid);
  }

  /** Which entries an index has after the changes of an UPDATE. */
  lemma {:induction false} ChangeEntriesMember(env: Env, idx: Indexes, cs: seq<Change>, col: string, k: Key, cid: Cid)
    requires Standing(idx) && col in idx
    ensures cid in Vals(ChangeEntries(env, idx, cs)[col], k)
      <==> (cid in Vals(idx[col], k) && !RemovedFrom(env, cs, 0, col, k, cid)) || AddedToStay(env, cs, col, k, cid)
  {
    if cs != [] {
      var n := |cs| - 1;
      ChangeEntriesMember(env, idx, cs[..n], col, k, cid);
      ChangeMember(env, ChangeEntries(env, idx, cs[..n]), cs[n], col, k, cid);
      RemovedSnoc(env, cs, 0, col, k, cid);
      AddedSnoc(env, cs, col, k, cid);
    }
  }

  /** Read off before anything is written: an old entry outlives all removals, or a new one all later removals. */
  ghost predicate StaysLive(env: Env, idx: Indexes, cs: seq<Change>, col: string, k: Key)
    requires col in idx
  {
    || (exists cid :: cid in Vals(idx[col], k) && !RemovedFrom(env, cs, 0, col, k, cid))
    || (exists i :: 0 <= i < |cs| && Adds(env, cs[i], col, k) && !RemovedFrom(env, cs, i + 1, col, k, cs[i].cid))
  }

  /** A key is live after the changes of an UPDATE if and only if some entry outlives the removals after it. */
  lemma {:induction false} ChangeEntriesLiveExactly(env: Env, idx: Indexes, cs: seq<Change>, col: string, k: Key)
    requires Standing(idx) && col in idx
    ensures Live(ChangeEntries(env, idx, cs), col, k) <==> StaysLive(env, idx, cs, col, k)
  {
    var vs := Vals(ChangeEntries(env, idx, cs)[col], k);
    if vs != [] {
      var cid := vs[0];
      ChangeEntriesMember(env, idx, cs, col, k, cid);
    }
    if cid :| cid in Vals(idx[col], k) && !RemovedFrom(env, cs, 0, col, k, cid) {
      ChangeEntriesMember(env, idx, cs, col, k, cid);
    }
    if i :| 0 <= i < |cs| && Adds(env, cs[i], col, k) && !RemovedFrom(env, cs, i + 1, col, k, cs[i].cid) {
      assert AddedToStay(env, cs, col, k, cs[i].cid);
      ChangeEntriesMember(env, idx, cs, col, k, cs[i].cid);
    }
  }

  // ---------------------------------------------- when UPDATE is safe

  ghost predicate RowOutlives(env: Env, schema: Schema, idx: Indexes, cs: seq<Change>, row: Row)
    requires forall col :: Unique(schema, col) ==> col in idx
  {
    forall col :: Unique(schema, col) && col in row ==>
      row[col] != Null && StaysLive(env, idx, cs, col, IndexKey(env, row[col]))
  }

  /**
   What could be checked before an UPDATE writes: it succeeds, no two of the rows it makes share a UNIQUE value, no
   UNIQUE value is NULL, and none loses its last index entry.
   */
  ghost predicate UpdateIsSafe(env: Env, schema: Schema, es: seq<Entry>, idx: Indexes, w: Where, sets: seq<SetClause>) {
    (forall col :: Unique(schema, col) ==> col in idx) &&
    var now, cs := UpdatedRows(w, sets, RowsOf(es)), Changes(w, sets, es);
    && now.Ok?
    && (forall i, j :: 0 <= i < j < |now.value| ==> Apart(env, schema, now.value[i], now.value[j]))
    && (forall i :: 0 <= i < |now.value| ==> RowOutlives(env, schema, idx, cs, now.value[i]))
  }

  /** The UNIQUE values of one row after an UPDATE are covered if and only if they outlive it. */
  lemma {:induction false} RowCoveredExactly(env: Env, schema: Schema, idx: Indexes, cs: seq<Change>, row: Row)
    requires Standing(idx) && forall col :: Unique(schema, col) ==> col in idx
    ensures RowCovered(env, schema, ChangeEntries(env, idx, cs), row) <==> RowOutlives(env, schema, idx, cs, row)
  {
    var idx' := ChangeEntries(env, idx, cs);
    forall col | Unique(schema, col) && col in row
      ensures Live(idx', col, IndexKey(env, row[col])) <==> StaysLive(env, idx, cs, col, IndexKey(env, row[col]))
    {
      ChangeEntriesLiveExactly(env, idx, cs, col, IndexKey(env, row[col]));
    }
  }

  lemma {:induction false} RowsCoveredExactly(env: Env, schema: Schema, idx: Indexes, cs: seq<Change>, rows: seq<Row>)
    requires Standing(idx) && forall col :: Unique(schema, col) ==> col in idx
    ensures (forall i :: 0 <= i < |rows| ==> RowCovered(env, schema, ChangeEntries(env, idx, cs), rows[i]))
       <==> (forall i :: 0 <= i < |rows| ==> RowOutlives(env, schema, idx, cs, rows[i]))
  {
    forall i | 0 <= i < |rows|
      ensures RowCovered(env, schema, ChangeEntries(env, idx, cs), rows[i])
         <==> RowOutlives(env, schema, idx, cs, rows[i])
    {
      RowCoveredExactly(env, schema, idx, cs, rows[i]);
    }
  }

  /** From a guarded state, a successful UPDATE keeps the guard if and only if it is safe. */
  lemma {:induction false} UpdateKeepsGuardExactly(
    env: Env, schema: Schema, es: seq<Entry>, idx: Indexes, w: Where, sets: seq<SetClause>)
    requires Guarded(env, schema, RowsOf(es), idx) && UpdatedRows(w, sets, RowsOf(es)).Ok?
    ensures Guarded(env, schema, UpdatedRows(w, sets, RowsOf(es)).value, ChangeEntries(env, idx, Changes(w, sets, es)))
       <==> UpdateIsSafe(env, schema, es, idx, w, sets)
  {
    var now, cs := UpdatedRows(w, sets, RowsOf(es)).value, Changes(w, sets, es);
    RowsCoveredExactly(env, schema, idx, cs, now);
  }

  ghost predicate SafeStep(env: Env, schema: Schema, s: State, stmt: Stmt, s': State) {
    s' == s || !stmt.UpdateStmt? || UpdateIsSafe(env, schema, s.es, s.idx, stmt.w, stmt.sets)
  }

  lemma {:induction false} SafeStepExactly(env: Env, schema: Schema, s: State, stmt: Stmt, s': State)
    requires GuardedAt(env, schema, s) && (s' == s || Steps(env, schema, s, stmt, s'))
    ensures GuardedAt(env, schema, s') <==> SafeStep(env, schema, s, stmt, s')
  {
    if s' != s {
      if stmt.UpdateStmt? {
        UpdateKeepsGuardExactly(env, schema, s.es, s.idx, stmt.w, stmt.sets);
      } else {
        StepKeepsGuard(env, schema, s, stmt, s');
      }
    }
  }

  ghost predicate GuardedAt(env: Env, schema: Schema, s: State) { Guarded(env, schema, RowsOf(s.es), s.idx) }

  /** The `i`-th statement is no UPDATE, fails, or is safe where it runs. */
  ghost predicate SafeAt(env: Env, schema: Schema, states: seq<State>, stmts: seq<Stmt>, i: nat)
    requires i < |stmts| < |states|
  {
    SafeStep(env, schema, states[i], stmts[i], states[i + 1])
  }

  /** The guard holds in the first states of a run if and only if every UPDATE between them is safe where it runs. */
  lemma {:induction false} UniqueWhileUpdatesAreSafe(
    env: Env, schema: Schema, states: seq<State>, stmts: seq<Stmt>, n: nat)
    requires IsRun(env, schema, states, stmts) && n <= |stmts|
    ensures (forall i :: 0 <= i <= n ==> GuardedAt(env, schema, states[i]))
       <==> (forall i :: 0 <= i < n ==> SafeAt(env, schema, states, stmts, i))
  {
    if n == 0 {
      GuardedAtFirst(env, schema, states, stmts);
    } else {
      UniqueWhileUpdatesAreSafe(env, schema, states, stmts, n - 1);
      SafeAtExactly(env, schema, states, stmts, n - 1);
    }
  }

  lemma {:induction false} SafeAtExactly(env: Env, schema: Schema, states: seq<State>, stmts: seq<Stmt>, i: nat)
    requires IsRun(env, schema, states, stmts) && i < |stmts|
    ensures GuardedAt(env, schema, states[i]) ==>
      (GuardedAt(env, schema, states[i + 1]) <==> SafeAt(env, schema, states, stmts, i))
  {
    assert StepAt(env, schema, states, stmts, i);
    if GuardedAt(env, schema, states[i]) { SafeStepExactly(env, schema, states[i], stmts[i], states[i + 1]); }
  }

  lemma {:induction false} GuardedAtFirst(env: Env, schema: Schema, states: seq<State>, stmts: seq<Stmt>)
    requires IsRun(env, schema, states, stmts)
    ensures GuardedAt(env, schema, states[0])
  {
    assert Run(Intended, []) == EMPTY_TREE;
    assert Stands(Intended, EMPTY_TREE);
    assert RowsOf([]) == [];
  }

  // ------------------------------------------------------ concrete runs

  /** A table with one UNIQUE column. */
  function OneColumn(col: string, typ: string): Schema { [Column(col, typ, false, true)] }

  /** The values of the runs below: the texts of two of them, three different keys, none NULL. */
  ghost predicate Values(env: Env, typ: string, ta: string, tb: string, a: Cell, b: Cell, c: Cell) {
    && env.cast(ta, typ) == Ok(a) && env.cast(tb, typ) == Ok(b) && a != Null && b != Null && CanStore(c)
    && IndexKey(env, a) != IndexKey(env, b) && IndexKey(env, b) != IndexKey(env, c)
    && IndexKey(env, a) != IndexKey(env, c)
  }

  /** One row of one column, put in when its key is not live. */
  lemma {:induction false} InsertOne(env: Env, col: string, typ: string, idx: Indexes, text: string, v: Cell)
    requires Standing(idx) && col in idx && env.cast(text, typ) == Ok(v) && v != Null
    ensures BuildRow(env, OneColumn(col, typ), idx, [col], [Literal(text)])
         == if Live(idx, col, IndexKey(env, v)) then Err else Ok(map[col := v])
  {
    var schema := OneColumn(col, typ);
    LiveIsRead(idx, col, IndexKey(env, v));
    assert FindColumn(schema, col) == Ok(schema[0]);
    assert InsertValue(env, schema, idx, col, Literal(text)) == if Live(idx, col, IndexKey(env, v)) then Err else Ok(v);
    assert InsertedRow(env, schema, idx, [col], [Literal(text)], 0) == Ok(map[]);
  }

  function One(col: string, v: Cell): Row { map[col := v] }

  function InsertTwo(col: string, ta: string, tb: string): Stmt { InsertStmt([col], [[Literal(ta)], [Literal(tb)]]) }

  ghost predicate NothingIn(idx: Indexes, col: string) { col in idx && forall k :: Vals(idx[col], k) == [] }

  lemma {:induction false} FreshIsEmpty(col: string, typ: string)
    ensures var idx := FreshIndexes(OneColumn(col, typ)); Standing(idx) && NothingIn(idx, col)
  {
    assert FindColumn(OneColumn(col, typ), col) == Ok(Column(col, typ, false, true));
    assert Run(Intended, []) == EMPTY_TREE;
    assert Stands(Intended, EMPTY_TREE);
  }

  /** The index after a row with each value was put in, under two CIDs. */
  ghost function TwoPut(env: Env, col: string, idx: Indexes, a: Cell, b: Cell, c1: Cid, c2: Cid): (r: Indexes)
    requires Standing(idx)
    ensures Standing(r) && r.Keys == idx.Keys
  {
    PutRow(env, PutRow(env, idx, One(col, a), c1), One(col, b), c2)
  }

  lemma {:induction false} TwoPutVals(env: Env, col: string, idx: Indexes, a: Cell, b: Cell, c1: Cid, c2: Cid, k: Key)
    requires Standing(idx) && NothingIn(idx, col)
    ensures Vals(TwoPut(env, col, idx, a, b, c1, c2)[col], k)
         == (if IndexKey(env, a) == k then [c1] else []) + if IndexKey(env, b) == k then [c2] else []
  {
    PutRowVals(env, idx, One(col, a), c1, col, k);
    PutRowVals(env, PutRow(env, idx, One(col, a), c1), One(col, b), c2, col, k);
    Seqs.Empty(if IndexKey(env, a) == k then [c1] else []);
  }

  /** The table after two rows were inserted: both on one page, which was saved once under `c1` and then under `c2`. */
  ghost function TwoRows(env: Env, col: string, idx: Indexes, a: Cell, b: Cell, c1: Cid, c2: Cid): (s: State)
    requires Standing(idx)
    ensures Standing(s.idx) && s.idx.Keys == idx.Keys && RowsOf(s.es) == [One(col, a)] + [One(col, b)]
  {
    State([Entry(One(col, a), c2), Entry(One(col, b), c2)], TwoPut(env, col, idx, a, b, c1, c2))
  }

  /** An INSERT of one row, whose key must not be live. */
  lemma {:induction false} InsertsOne(
    env: Env, col: string, typ: string, idx: Indexes, text: string, v: Cell, cids: seq<Cid>)
    requires Standing(idx) && col in idx && env.cast(text, typ) == Ok(v) && v != Null && |cids| >= 1
    ensures InsertRows(env, OneColumn(col, typ), idx, [col], [[Literal(text)]], cids, 1)
         == if Live(idx, col, IndexKey(env, v)) then Err
            else Ok(([One(col, v)], PutRow(env, idx, One(col, v), cids[0])))
  {
    InsertOne(env, col, typ, idx, text, v);
    assert InsertRows(env, OneColumn(col, typ), idx, [col], [[Literal(text)]], cids, 0) == Ok(([], idx));
    Seqs.Empty([One(col, v)]);
  }

  /** A second row after the first. */
  lemma {:induction false} InsertsTwo(
    env: Env, col: string, typ: string, idx: Indexes, ta: string, tb: string, a: Cell, b: Cell, cids: seq<Cid>)
    requires env.cast(ta, typ) == Ok(a) && env.cast(tb, typ) == Ok(b) && a != Null && b != Null && |cids| == 2
    requires Standing(idx) && col in idx && !Live(idx, col, IndexKey(env, a)) && !Live(idx, col, IndexKey(env, b))
    requires IndexKey(env, a) != IndexKey(env, b)
    ensures InsertRows(env, OneColumn(col, typ), idx, [col], [[Literal(ta)], [Literal(tb)]], cids, 2)
         == Ok(([One(col, a)] + [One(col, b)], TwoPut(env, col, idx, a, b, cids[0], cids[1])))
  {
    var schema, idx' := OneColumn(col, typ), PutRow(env, idx, One(col, a), cids[0]);
    InsertOne(env, col, typ, idx, ta, a);
    PutRowLive(env, idx, One(col, a), cids[0], col, IndexKey(env, b));
    InsertOne(env, col, typ, idx', tb, b);
    Seqs.Empty([One(col, a)]);
    var tuples := [[Literal(ta)], [Literal(tb)]];
    assert InsertRows(env, schema, idx, [col], tuples, cids, 0) == Ok(([], idx));
    assert InsertRows(env, schema, idx, [col], tuples, cids, 1) == Ok(([One(col, a)], idx'));
  }

  lemma {:induction false} InsertSteps(
    env: Env, schema: Schema, s: State, columns: seq<string>, tuples: seq<seq<InsertExpr>>, cids: seq<Cid>,
    rows: seq<Row>, s': State)
    requires Standing(s.idx) && |cids| == |tuples|
    requires InsertRows(env, schema, s.idx, InsertNames(schema, columns), tuples, cids, |tuples|) == Ok((rows, s'.idx))
    requires RowsOf(s'.es) == RowsOf(s.es) + rows
    ensures Steps(env, schema, s, InsertStmt(columns, tuples), s')
  {
  }

  lemma {:induction false} TwoRowsInserted(
    env: Env, col: string, typ: string, idx: Indexes, ta: string, tb: string, a: Cell, b: Cell, c1: Cid, c2: Cid)
    requires env.cast(ta, typ) == Ok(a) && env.cast(tb, typ) == Ok(b) && a != Null && b != Null
    requires Standing(idx) && NothingIn(idx, col) && IndexKey(env, a) != IndexKey(env, b)
    ensures Steps(env, OneColumn(col, typ), State([], idx), InsertTwo(col, ta, tb),
                  TwoRows(env, col, idx, a, b, c1, c2))
  {
    var rows, tuples := [One(col, a)] + [One(col, b)], [[Literal(ta)], [Literal(tb)]];
    var s, s', schema, cids := State([], idx), TwoRows(env, col, idx, a, b, c1, c2), OneColumn(col, typ), [c1, c2];
    assert InsertRows(env, schema, s.idx, InsertNames(schema, [col]), tuples, cids, |tuples|) == Ok((rows, s'.idx)) by {
      InsertsTwo(env, col, typ, idx, ta, tb, a, b, cids);
    }
    assert RowsOf(s'.es) == RowsOf(s.es) + rows by {
      Seqs.Empty(rows);
      assert RowsOf([]) == [];
    }
    InsertSteps(env, schema, s, [col], tuples, cids, rows, s');
  }

  /** SET on one column. */
  function SetOne(col: string, f: Row -> Result<Cell>): seq<SetClause> { [SetClause(col, f)] }

  lemma {:induction false} UpdateOne(col: string, f: Row -> Result<Cell>, v: Cell, v': Cell)
    requires f(One(col, v)) == Ok(v') && CanStore(v')
    ensures UpdatedRow(All, SetOne(col, f), One(col, v)) == Ok(One(col, v'))
  {
    assert SetOne(col, f)[..0] == [];
    assert SetRow([], One(col, v)) == Ok(One(col, v));
    assert One(col, v)[col := v'] == One(col, v');
  }

  lemma {:induction false} UpdateTwo(
    col: string, f: Row -> Result<Cell>, a: Cell, a': Cell, b: Cell, b': Cell, cid: Cid)
    requires f(One(col, a)) == Ok(a') && f(One(col, b)) == Ok(b') && CanStore(a') && CanStore(b')
    ensures var es := [Entry(One(col, a), cid), Entry(One(col, b), cid)];
      && UpdatedRows(All, SetOne(col, f), RowsOf(es)) == Ok([One(col, a')] + [One(col, b')])
      && Changes(All, SetOne(col, f), es)
         == [Change(One(col, a), One(col, a'), cid)] + [Change(One(col, b), One(col, b'), cid)]
  {
    UpdateOne(col, f, a, a');
    UpdateOne(col, f, b, b');
    var es := [Entry(One(col, a), cid), Entry(One(col, b), cid)];
    var rows := RowsOf(es);
    assert es[..1] == [es[0]] && es[..1][..0] == [] && rows[..1] == [rows[0]] && rows[..1][..0] == [];
    Seqs.Empty([One(col, a')]);
    Seqs.Empty([Change(One(col, a), One(col, a'), cid)]);
    assert UpdatedRows(All, SetOne(col, f), []) == Ok([]);
    assert UpdatedRows(All, SetOne(col, f), rows[..1]) == Ok([One(col, a')]);
    assert Changes(All, SetOne(col, f), es[..1]) == [Change(One(col, a), One(col, a'), cid)];
  }

  /** The table after an UPDATE of both rows, whose page is then saved under `c3`. */
  ghost function BothUpdated(
    env: Env, col: string, idx: Indexes, a: Cell, a': Cell, b: Cell, b': Cell, c2: Cid, c3: Cid): (s: State)
    requires Standing(idx)
    ensures Standing(s.idx) && s.idx.Keys == idx.Keys && RowsOf(s.es) == [One(col, a')] + [One(col, b')]
  {
    State([Entry(One(col, a'), c3), Entry(One(col, b'), c3)],
          ChangeEntries(env, idx, [Change(One(col, a), One(col, a'), c2)] + [Change(One(col, b), One(col, b'), c2)]))
  }

  /** The first three states of the runs with an UPDATE. */
  lemma {:induction false} UpdateRun(
    env: Env, col: string, typ: string, ta: string, tb: string, f: Row -> Result<Cell>,
    a: Cell, a': Cell, b: Cell, b': Cell, c1: Cid, c2: Cid, c3: Cid) returns (states: seq<State>, stmts: seq<Stmt>)
    requires env.cast(ta, typ) == Ok(a) && env.cast(tb, typ) == Ok(b) && a != Null && b != Null
    requires IndexKey(env, a) != IndexKey(env, b)
    requires f(One(col, a)) == Ok(a') && f(One(col, b)) == Ok(b') && CanStore(a') && CanStore(b')
    ensures IsRun(env, OneColumn(col, typ), states, stmts)
    ensures stmts == [InsertTwo(col, ta, tb), UpdateStmt(All, SetOne(col, f))]
    ensures Standing(states[0].idx) && NothingIn(states[0].idx, col)
    ensures states[1] == TwoRows(env, col, states[0].idx, a, b, c1, c2)
    ensures states[2] == BothUpdated(env, col, states[1].idx, a, a', b, b', c2, c3)
  {
    var schema := OneColumn(col, typ);
    var s0 := State([], FreshIndexes(schema));
    FreshIsEmpty(col, typ);
    TwoRowsInserted(env, col, typ, s0.idx, ta, tb, a, b, c1, c2);
    var s1 := TwoRows(env, col, s0.idx, a, b, c1, c2);
    TwoRowsUpdated(env, schema, col, s0.idx, f, a, a', b, b', c1, c2, c3);
    var s2 := BothUpdated(env, col, s1.idx, a, a', b, b', c2, c3);
    states, stmts := [s0, s1, s2], [InsertTwo(col, ta, tb), UpdateStmt(All, SetOne(col, f))];
    TwoSteps(env, schema, states, stmts);
  }

  lemma {:induction false} TwoRowsUpdated(
    env: Env, schema: Schema, col: string, idx: Indexes, f: Row -> Result<Cell>,
    a: Cell, a': Cell, b: Cell, b': Cell, c1: Cid, c2: Cid, c3: Cid)
    requires Standing(idx) && f(One(col, a)) == Ok(a') && f(One(col, b)) == Ok(b') && CanStore(a') && CanStore(b')
    ensures var s := TwoRows(env, col, idx, a, b, c1, c2);
      Steps(env, schema, s, UpdateStmt(All, SetOne(col, f)), BothUpdated(env, col, s.idx, a, a', b, b', c2, c3))
  {
    UpdateTwo(col, f, a, a', b, b', c2);
  }

  lemma {:induction false} TwoSteps(env: Env, schema: Schema, states: seq<State>, stmts: seq<Stmt>)
    requires |states| == 3 && |stmts| == 2 && states[0] == State([], FreshIndexes(schema))
    requires Steps(env, schema, states[0], stmts[0], states[1]) && Steps(env, schema, states[1], stmts[1], states[2])
    ensures IsRun(env, schema, states, stmts)
  {
    forall i | 0 <= i < |stmts| ensures StepAt(env, schema, states, stmts, i) { assert i == 0 || i == 1; }
  }

  /** UPDATE checks nothing: with SET col = a constant, two rows share a UNIQUE value. */
  lemma {:induction false} UpdateMayDuplicate(
    env: Env, col: string, typ: string, ta: string, tb: string, a: Cell, b: Cell, c1: Cid, c2: Cid, c3: Cid)
    returns (states: seq<State>, stmts: seq<Stmt>)
    requires env.cast(ta, typ) == Ok(a) && env.cast(tb, typ) == Ok(b) && CanStore(a) && b != Null
    requires IndexKey(env, a) != IndexKey(env, b)
    ensures IsRun(env, OneColumn(col, typ), states, stmts) && |stmts| == 2 && Unique(OneColumn(col, typ), col)
    ensures RowsOf(states[2].es) == [One(col, a)] + [One(col, a)]
  {
    states, stmts := UpdateRun(env, col, typ, ta, tb, _ => Ok(a), a, a, b, a, c1, c2, c3);
  }

  /** The change of the second row removes the entry that the change of the first has added. */
  lemma {:induction false} ShiftedKeyIsLost(
    env: Env, col: string, idx: Indexes, a: Cell, a': Cell, b: Cell, b': Cell, c2: Cid)
    requires Standing(idx) && col in idx && Vals(idx[col], IndexKey(env, b)) == [c2]
    requires IndexKey(env, b') != IndexKey(env, b)
    ensures var cs := [Change(One(col, a), One(col, a'), c2)] + [Change(One(col, b), One(col, b'), c2)];
      !Live(ChangeEntries(env, idx, cs), col, IndexKey(env, b))
  {
    var cs := [Change(One(col, a), One(col, a'), c2)] + [Change(One(col, b), One(col, b'), c2)];
    assert cs[1] == Change(One(col, b), One(col, b'), c2) && cs[0].cid == c2;
    LastRemoves(env, idx, cs, col, IndexKey(env, b), c2);
    ChangeEntriesLiveExactly(env, idx, cs, col, IndexKey(env, b));
  }

  lemma {:induction false} LastRemoves(env: Env, idx: Indexes, cs: seq<Change>, col: string, k: Key, cid: Cid)
    requires col in idx && Vals(idx[col], k) == [cid] && |cs| == 2 && cs[0].cid == cid == cs[1].cid
    requires Removes(env, cs[1], col, k) && !Adds(env, cs[1], col, k)
    ensures !StaysLive(env, idx, cs, col, k)
  {
    assert RemovedFrom(env, cs, 0, col, k, cid) && RemovedFrom(env, cs, 1, col, k, cid);
  }

  /**
   UPDATE may also drop a live key: with SET u = u + 1 over the rows 1 and 2 of one page, the new values differ, but the
   index forgets the 2, so that INSERT accepts it again and two rows share it. What the arithmetic makes of the 1 need
   only be rendered like the 2, as 2.0 is.
   */
  lemma {:induction false} UpdateDropsALiveKey(
    env: Env, col: string, typ: string, ta: string, tb: string, f: Row -> Result<Cell>,
    a: Cell, a': Cell, b: Cell, b': Cell, c1: Cid, c2: Cid, c3: Cid, c4: Cid)
    returns (states: seq<State>, stmts: seq<Stmt>)
    requires Values(env, typ, ta, tb, a, b, b') && f(One(col, a)) == Ok(a') && f(One(col, b)) == Ok(b')
    requires CanStore(a') && IndexKey(env, a') == IndexKey(env, b)
    ensures IsRun(env, OneColumn(col, typ), states, stmts) && |stmts| == 3 && Unique(OneColumn(col, typ), col)
    ensures RowsOf(states[2].es) == [One(col, a')] + [One(col, b')]
    ensures Apart(env, OneColumn(col, typ), One(col, a'), One(col, b'))
    ensures RowsOf(states[3].es) == [One(col, a')] + [One(col, b')] + [One(col, b)]
    ensures !Apart(env, OneColumn(col, typ), One(col, a'), One(col, b))
  {
    ApartOfOne(env, col, typ, a', b');
    ApartOfOne(env, col, typ, a', b);
    states, stmts := UpdateRun(env, col, typ, ta, tb, f, a, a', b, b', c1, c2, c3);
    KeyIsLost(env, col, states[0].idx, a, a', b, b', c1, c2, c3);
    var s := states[2];
    var s' := OneInserted(env, col, typ, s, tb, b, c4);
    OneMoreStep(env, OneColumn(col, typ), states, stmts, InsertStmt([col], [[Literal(tb)]]), s');
    states, stmts := states + [s'], stmts + [InsertStmt([col], [[Literal(tb)]])];
  }

  lemma {:induction false} ApartOfOne(env: Env, col: string, typ: string, x: Cell, y: Cell)
    ensures Unique(OneColumn(col, typ), col)
    ensures Apart(env, OneColumn(col, typ), One(col, x), One(col, y)) <==> IndexKey(env, x) != IndexKey(env, y)
  {
    var schema, a, b := OneColumn(col, typ), One(col, x), One(col, y);
    assert FindColumn(schema, col) == Ok(schema[0]);
    assert Unique(schema, col) && col in a && col in b && a[col] == x && b[col] == y;
    forall c | Unique(schema, c) && c in a && c in b && IndexKey(env, x) != IndexKey(env, y)
      ensures IndexKey(env, a[c]) != IndexKey(env, b[c])
    {
      assert c == col;
    }
  }

  lemma {:induction false} KeyIsLost(
    env: Env, col: string, idx: Indexes, a: Cell, a': Cell, b: Cell, b': Cell, c1: Cid, c2: Cid, c3: Cid)
    requires Standing(idx) && NothingIn(idx, col)
    requires IndexKey(env, a) != IndexKey(env, b) && IndexKey(env, b') != IndexKey(env, b)
    ensures var s := TwoRows(env, col, idx, a, b, c1, c2);
      !Live(BothUpdated(env, col, s.idx, a, a', b, b', c2, c3).idx, col, IndexKey(env, b))
  {
    TwoPutVals(env, col, idx, a, b, c1, c2, IndexKey(env, b));
    Seqs.Empty([c2]);
    ShiftedKeyIsLost(env, col, TwoRows(env, col, idx, a, b, c1, c2).idx, a, a', b, b', c2);
  }

  /** One more row, whose key is not live. */
  lemma {:induction false} OneInserted(env: Env, col: string, typ: string, s: State, text: string, v: Cell, cid: Cid)
    returns (s': State)
    requires Standing(s.idx) && col in s.idx && !Live(s.idx, col, IndexKey(env, v))
    requires env.cast(text, typ) == Ok(v) && v != Null
    ensures Steps(env, OneColumn(col, typ), s, InsertStmt([col], [[Literal(text)]]), s')
    ensures RowsOf(s'.es) == RowsOf(s.es) + [One(col, v)]
  {
    InsertsOne(env, col, typ, s.idx, text, v, [cid]);
    s' := State(s.es + [Entry(One(col, v), cid)], PutRow(env, s.idx, One(col, v), cid));
    assert RowsOf(s'.es) == RowsOf(s.es) + [One(col, v)];
    InsertSteps(env, OneColumn(col, typ), s, [col], [[Literal(text)]], [cid], [One(col, v)], s');
  }

  lemma {:induction false} OneMoreStep(
    env: Env, schema: Schema, states: seq<State>, stmts: seq<Stmt>, stmt: Stmt, s': State)
    requires IsRun(env, schema, states, stmts) && Steps(env, schema, states[|stmts|], stmt, s')
    ensures IsRun(env, schema, states + [s'], stmts + [stmt])
  {
    forall i | 0 <= i < |stmts + [stmt]| ensures StepAt(env, schema, states + [s'], stmts + [stmt], i) {
      if i < |stmts| { assert StepAt(env, schema, states, stmts, i); }
    }
  }

  // ------------------------------------------------------- stale keys

  lemma {:induction false} DeleteFirst(w: Where, r: Row, q: Row, cid: Cid)
    requires Selects(w, r) == Ok(true) && Selects(w, q) == Ok(false)
    ensures var es := [Entry(r, cid), Entry(q, cid)];
      KeptRows(w, RowsOf(es)) == Ok([q]) && DeletedEntries(w, es) == [Entry(r, cid)]
  {
    var es := [Entry(r, cid), Entry(q, cid)];
    var rows, none := RowsOf(es), RowsOf([]);
    assert rows == [r, q] && rows[..1] == [r] && rows[..1][..0] == none == [];
    assert es[..1] == [es[0]] && es[..1][..0] == [];
    Seqs.Empty(none);
    Seqs.Empty([q]);
    assert KeptRows(w, none) == Ok(none) && KeptRows(w, rows[..1]) == Ok(none + []);
    Seqs.Empty([es[0]]);
    assert DeletedEntries(w, es[..1]) == [es[0]];
  }

  lemma {:induction false} StaysUnderOldCid(env: Env, col: string, idx: Indexes, a: Cell, b: Cell, c1: Cid, c2: Cid)
    requires Standing(idx) && NothingIn(idx, col) && IndexKey(env, a) != IndexKey(env, b) && c1 != c2
    ensures var idx' := TwoPut(env, col, idx, a, b, c1, c2);
      Live(RemoveEntries(env, idx', [Entry(One(col, a), c2)]), col, IndexKey(env, a))
  {
    var idx', es, k := TwoPut(env, col, idx, a, b, c1, c2), [Entry(One(col, a), c2)], IndexKey(env, a);
    TwoPutVals(env, col, idx, a, b, c1, c2, k);
    Seqs.Empty([c1]);
    assert es[..0] == [] && RemoveEntries(env, idx', []) == idx';
    RemoveRowVals(env, idx', One(col, a), c2, col, k);
    WithoutMembers([c1], c2, c1);
  }

  /**
   A key may outlive its row: two rows inserted by one statement, the first deleted, and its value is refused although
   no row has it, because its entry names the page as it was before the second row.
   */
  lemma {:induction false} StaleKeyRefuses(
    env: Env, col: string, typ: string, ta: string, tb: string, w: Where, a: Cell, b: Cell, c1: Cid, c2: Cid, c3: Cid)
    returns (states: seq<State>, stmts: seq<Stmt>)
    requires env.cast(ta, typ) == Ok(a) && env.cast(tb, typ) == Ok(b) && a != Null && b != Null && c1 != c2
    requires IndexKey(env, a) != IndexKey(env, b)
    requires Selects(w, One(col, a)) == Ok(true) && Selects(w, One(col, b)) == Ok(false)
    ensures IsRun(env, OneColumn(col, typ), states, stmts) && stmts == [InsertTwo(col, ta, tb), DeleteStmt(w)]
    ensures RowsOf(states[2].es) == [One(col, b)] && Standing(states[2].idx)
    ensures InsertRows(env, OneColumn(col, typ), states[2].idx, [col], [[Literal(ta)]], [c3], 1) == Err
  {
    var schema := OneColumn(col, typ);
    var s0 := State([], FreshIndexes(schema));
    FreshIsEmpty(col, typ);
    TwoRowsInserted(env, col, typ, s0.idx, ta, tb, a, b, c1, c2);
    var s1 := TwoRows(env, col, s0.idx, a, b, c1, c2);
    FirstDeleted(env, schema, col, s0.idx, w, a, b, c1, c2, c3);
    var s2 := FirstGone(env, col, s0.idx, a, b, c1, c2, c3);
    StaysUnderOldCid(env, col, s0.idx, a, b, c1, c2);
    InsertsOne(env, col, typ, s2.idx, ta, a, [c3]);
    states, stmts := [s0, s1, s2], [InsertTwo(col, ta, tb), DeleteStmt(w)];
    TwoSteps(env, schema, states, stmts);
  }

  /** The table after the first of the two rows is deleted, its page then saved under `c3`. */
  ghost function FirstGone(
    env: Env, col: string, idx: Indexes, a: Cell, b: Cell, c1: Cid, c2: Cid, c3: Cid): (s: State)
    requires Standing(idx)
    ensures Standing(s.idx) && s.idx.Keys == idx.Keys && RowsOf(s.es) == [One(col, b)]
  {
    State([Entry(One(col, b), c3)], RemoveEntries(env, TwoPut(env, col, idx, a, b, c1, c2), [Entry(One(col, a), c2)]))
  }

  lemma {:induction false} FirstDeleted(
    env: Env, schema: Schema, col: string, idx: Indexes, w: Where, a: Cell, b: Cell, c1: Cid, c2: Cid, c3: Cid)
    requires Standing(idx) && Selects(w, One(col, a)) == Ok(true) && Selects(w, One(col, b)) == Ok(false)
    ensures Steps(env, schema, TwoRows(env, col, idx, a, b, c1, c2), DeleteStmt(w),
                  FirstGone(env, col, idx, a, b, c1, c2, c3))
  {
    DeleteFirst(w, One(col, a), One(col, b), c2);
    DeleteSteps(env, schema, TwoRows(env, col, idx, a, b, c1, c2), w, FirstGone(env, col, idx, a, b, c1, c2, c3));
  }

  lemma {:induction false} DeleteSteps(env: Env, schema: Schema, s: State, w: Where, s': State)
    requires Standing(s.idx) && KeptRows(w, RowsOf(s.es)) == Ok(RowsOf(s'.es))
    requires s'.idx == RemoveEntries(env, s.idx, DeletedEntries(w, s.es))
    ensures Steps(env, schema, s, DeleteStmt(w), s')
  {
  }
}
