/**
 What the indexes guarantee in every state a table can reach: a stored value of a UNIQUE
 column is a key of the column's index, and no two rows share one.
 */
module TableRuns {
  import opened Cells
  import opened Keys
  import opened ProllyTree
  import opened ProllyTreeContents
  import opened ProllyTreeRuns
  import opened Tables

  /** A row's value in a UNIQUE column is stored, not NULL and a key of the index. */
  ghost predicate RowCovered(env: Env, schema: Schema, idx: Indexes, row: Row) {
    forall col :: Unique(schema, col) && col in row ==>
      col in idx && row[col] != Null && Live(idx, col, IndexKey(env, row[col]))
  }

  /** Two rows differ in a UNIQUE column both have a value for. */
  ghost predicate Apart(env: Env, schema: Schema, a: Row, b: Row) {
    forall col :: Unique(schema, col) && col in a && col in b ==> IndexKey(env, a[col]) != IndexKey(env, b[col])
  }

  ghost predicate Guarded(env: Env, schema: Schema, rows: seq<Row>, idx: Indexes) {
    && Standing(idx)
    && (forall col :: Unique(schema, col) ==> col in idx)
    && (forall i :: 0 <= i < |rows| ==> RowCovered(env, schema, idx, rows[i]))
    && (forall i, j :: 0 <= i < j < |rows| ==> Apart(env, schema, rows[i], rows[j]))
  }

  // -------------------------------------------------------------- INSERT

  /** A row that passes the checks has, in every UNIQUE column it names, a value the index does not know. */
  lemma {:induction false} BuiltRowIsNew(
    env: Env, schema: Schema, idx: Indexes, names: seq<string>, tuple: seq<InsertExpr>, n: nat, col: string)
    requires Standing(idx) && n <= |names| == |tuple| && InsertedRow(env, schema, idx, names, tuple, n).Ok?
    ensures var row := InsertedRow(env, schema, idx, names, tuple, n).value;
      Unique(schema, col) && col in row ==> col in idx && row[col] != Null && !Live(idx, col, IndexKey(env, row[col]))
  {
    if n > 0 {
      BuiltRowIsNew(env, schema, idx, names, tuple, n - 1, col);
      if names[n - 1] == col && Unique(schema, col) {
        var v := InsertValue(env, schema, idx, col, tuple[n - 1]);
        LiveIsRead(idx, col, IndexKey(env, v.value));
      }
    }
  }

  lemma {:induction false} InsertRowKeepsGuard(
    env: Env, schema: Schema, rows: seq<Row>, idx: Indexes, names: seq<string>, tuple: seq<InsertExpr>, cid: Cid)
    requires Guarded(env, schema, rows, idx) && BuildRow(env, schema, idx, names, tuple).Ok?
    ensures var row := BuildRow(env, schema, idx, names, tuple).value;
            Guarded(env, schema, rows + [row], PutRow(env, idx, row, cid))
  {
    var row := BuildRow(env, schema, idx, names, tuple).value;
    var idx' := PutRow(env, idx, row, cid);
    forall col ensures Unique(schema, col) && col in row ==>
        col in idx && row[col] != Null && !Live(idx, col, IndexKey(env, row[col])) {
      BuiltRowIsNew(env, schema, idx, names, tuple, |names|, col);
    }
    var rows' := rows + [row];
    forall i | 0 <= i < |rows'| ensures RowCovered(env, schema, idx', rows'[i]) {
      assert i < |rows| ==> RowCovered(env, schema, idx, rows'[i]);
      forall col | Unique(schema, col) && col in rows'[i] ensures Live(idx', col, IndexKey(env, rows'[i][col])) {
        PutRowLive(env, idx, row, cid, col, IndexKey(env, rows'[i][col]));
      }
    }
    forall i, j | 0 <= i < j < |rows'| ensures Apart(env, schema, rows'[i], rows'[j]) {
      assert RowCovered(env, schema, idx, rows[i]);
    }
  }

  /** A whole INSERT: rows of one statement are checked against each other too. */
  lemma {:induction false} InsertKeepsGuard(env: Env, schema: Schema, rows: seq<Row>, idx: Indexes, names: seq<string>,
                                            tuples: seq<seq<InsertExpr>>, cids: seq<Cid>, n: nat)
    requires Guarded(env, schema, rows, idx) && n <= |tuples| && n <= |cids|
    requires InsertRows(env, schema, idx, names, tuples, cids, n).Ok?
    ensures var r := InsertRows(env, schema, idx, names, tuples, cids, n).value;
            Guarded(env, schema, rows + r.0, r.1)
  {
    if n == 0 {
      assert rows + [] == rows;
    } else {
      InsertKeepsGuard(env, schema, rows, idx, names, tuples, cids, n - 1);
      var before := InsertRows(env, schema, idx, names, tuples, cids, n - 1).value;
      InsertRowKeepsGuard(env, schema, rows + before.0, before.1, names, tuples[n - 1], cids[n - 1]);
      var row := BuildRow(env, schema, before.1, names, tuples[n - 1]).value;
      assert rows + before.0 + [row] == rows + (before.0 + [row]);
    }
  }

  /** A value that some row holds in a UNIQUE column cannot be inserted again. */
  lemma {:induction false} DuplicateIsRejected(
    env: Env, schema: Schema, rows: seq<Row>, idx: Indexes, i: nat, col: string, e: InsertExpr)
    requires Guarded(env, schema, rows, idx) && i < |rows| && Unique(schema, col) && col in rows[i] && e.Literal?
    requires var v := env.cast(e.text, FindColumn(schema, col).value.typ);
             v.Ok? && IndexKey(env, v.value) == IndexKey(env, rows[i][col])
    ensures InsertValue(env, schema, idx, col, e) == Err
  {
    assert RowCovered(env, schema, idx, rows[i]);
    LiveIsRead(idx, col, IndexKey(env, rows[i][col]));
  }

  // -------------------------------------------------------------- DELETE

  lemma {:induction false} RemoveEntriesLive(env: Env, idx: Indexes, es: seq<Entry>, col: string, k: Key)
    requires Standing(idx) && col in idx && Live(idx, col, k)
    requires forall e :: e in es ==> !(col in e.row && IndexKey(env, e.row[col]) == k)
    ensures Live(RemoveEntries(env, idx, es), col, k)
  {
    if es != [] {
      var n := |es| - 1;
      RemoveEntriesLive(env, idx, es[..n], col, k);
      RemoveRowLive(env, RemoveEntries(env, idx, es[..n]), es[n].row, es[n].cid, col, k);
      assert es[n] in es;
    }
  }

  lemma {:induction false} DeleteKeepsGuard(env: Env, schema: Schema, es: seq<Entry>, idx: Indexes, w: Where)
    requires Guarded(env, schema, RowsOf(es), idx) && KeptRows(w, RowsOf(es)).Ok?
    ensures Guarded(env, schema, KeptRows(w, RowsOf(es)).value, RemoveEntries(env, idx, DeletedEntries(w, es)))
  {
    var rows, gone := RowsOf(es), DeletedEntries(w, es);
    var kept, idx' := KeptRows(w, rows).value, RemoveEntries(env, idx, gone);
    var at := DeleteFilters(w, rows);
    DeleteCounts(w, es);
    forall p | 0 <= p < |kept| ensures RowCovered(env, schema, idx', kept[p]) {
      var i := at[p];
      assert i in at;
      assert RowCovered(env, schema, idx, rows[i]);
      forall col | Unique(schema, col) && col in rows[i] ensures Live(idx', col, IndexKey(env, rows[i][col])) {
        forall e | e in gone ensures !(col in e.row && IndexKey(env, e.row[col]) == IndexKey(env, rows[i][col])) {
          var j :| 0 <= j < |es| && es[j] == e;
          assert j != i && rows[j] == e.row;
          assert Apart(env, schema, rows[if i < j then i else j], rows[if i < j then j else i]);
        }
        RemoveEntriesLive(env, idx, gone, col, IndexKey(env, rows[i][col]));
      }
    }
    forall p, q | 0 <= p < q < |kept| ensures Apart(env, schema, kept[p], kept[q]) {
      assert Apart(env, schema, rows[at[p]], rows[at[q]]);
    }
  }

  /**
   A deleted row's key leaves the index exactly when every entry under it names the CID the page has at that moment.
   */
  lemma {:induction false} StaleKeys(env: Env, idx: Indexes, row: Row, cid: Cid, col: string)
    requires Standing(idx) && col in idx && col in row
    ensures var k := IndexKey(env, row[col]);
      !Live(RemoveRow(env, idx, row, cid), col, k) <==> OnlyHolds(Vals(idx[col], k), cid)
  {
    var k := IndexKey(env, row[col]);
    var vs := Vals(idx[col], k);
    ApplyVals(Intended, idx[col], DeleteOp(k, cid), k);
    assert Vals(RemoveRow(env, idx, row, cid)[col], k) == Without(vs, cid);
    WithoutAll(vs, cid);
    assert Live(RemoveRow(env, idx, row, cid), col, k) <==> Without(vs, cid) != [];
  }

  predicate OnlyHolds(vs: seq<Value>, v: Value) {
    forall x :: x in vs ==> x == v
  }

  lemma {:induction false} WithoutMembers(vs: seq<Value>, v: Value, x: Value)
    ensures x in Without(vs, v) <==> x in vs && x != v
  {
    if vs != [] {
      WithoutMembers(vs[1..], v, x);
      assert vs == [vs[0]] + vs[1..];
    }
  }

  lemma {:induction false} WithoutAll(vs: seq<Value>, v: Value)
    ensures Without(vs, v) == [] <==> OnlyHolds(vs, v)
  {
    if Without(vs, v) != [] { WithoutMembers(vs, v, Without(vs, v)[0]); }
    forall x | x in vs && x != v ensures x in Without(vs, v) { WithoutMembers(vs, v, x); }
  }

  // -------------------------------------------------------------- UPDATE

  predicate Assigns(sets: seq<SetClause>, col: string) {
    exists i :: 0 <= i < |sets| && sets[i].col == col
  }

  lemma {:induction false} SetRowKeeps(sets: seq<SetClause>, row: Row, col: string)
    requires SetRow(sets, row).Ok? && !Assigns(sets, col)
    ensures var now := SetRow(sets, row).value; (col in now <==> col in row) && (col in row ==> now[col] == row[col])
  {
    if sets != [] {
      var n := |sets| - 1;
      assert !Assigns(sets[..n], col) && sets[n].col != col;
      SetRowKeeps(sets[..n], row, col);
    }
  }

  predicate SameIn(was: Row, now: Row, col: string) {
    (col in now <==> col in was) && (col in was ==> now[col] == was[col])
  }

  lemma {:induction false} ChangeEntriesLive(env: Env, idx: Indexes, cs: seq<Change>, col: string, k: Key)
    requires Standing(idx) && col in idx && Live(idx, col, k)
    requires forall c :: c in cs ==> SameIn(c.was, c.now, col)
    ensures Live(ChangeEntries(env, idx, cs), col, k)
  {
    if cs != [] {
      var n := |cs| - 1;
      ChangeEntriesLive(env, idx, cs[..n], col, k);
      var before := ChangeEntries(env, idx, cs[..n]);
      RemoveRowLive(env, before, cs[n].was, cs[n].cid, col, k);
      PutRowLive(env, RemoveRow(env, before, cs[n].was, cs[n].cid), cs[n].now, cs[n].cid, col, k);
      assert cs[n] in cs;
    }
  }

  lemma {:induction false} ChangesKeep(w: Where, sets: seq<SetClause>, es: seq<Entry>, col: string)
    requires !Assigns(sets, col)
    ensures forall c :: c in Changes(w, sets, es) ==> SameIn(c.was, c.now, col)
  {
    if es != [] {
      var n := |es| - 1;
      ChangesKeep(w, sets, es[..n], col);
      if UpdatedRow(w, sets, es[n].row).Ok? && Selects(w, es[n].row) == Ok(true) { SetRowKeeps(sets, es[n].row, col); }
    }
  }

  /** An UPDATE that assigns no UNIQUE column keeps the guard. */
  lemma {:induction false} UpdateKeepsGuard(
    env: Env, schema: Schema, es: seq<Entry>, idx: Indexes, w: Where, sets: seq<SetClause>)
    requires Guarded(env, schema, RowsOf(es), idx) && UpdatedRows(w, sets, RowsOf(es)).Ok?
    requires forall col :: Unique(schema, col) ==> !Assigns(sets, col)
    ensures Guarded(env, schema, UpdatedRows(w, sets, RowsOf(es)).value, ChangeEntries(env, idx, Changes(w, sets, es)))
  {
    var rows := RowsOf(es);
    var now, idx' := UpdatedRows(w, sets, rows).value, ChangeEntries(env, idx, Changes(w, sets, es));
    UpdateMapsRows(w, sets, rows);
    forall i, col | 0 <= i < |rows| && Unique(schema, col) ensures SameIn(rows[i], now[i], col) {
      if Selects(w, rows[i]) == Ok(true) { SetRowKeeps(sets, rows[i], col); }
    }
    forall i | 0 <= i < |now| ensures RowCovered(env, schema, idx', now[i]) {
      assert RowCovered(env, schema, idx, rows[i]);
      forall col | Unique(schema, col) && col in now[i] ensures Live(idx', col, IndexKey(env, now[i][col])) {
        assert SameIn(rows[i], now[i], col);
        ChangesKeep(w, sets, es, col);
        ChangeEntriesLive(env, idx, Changes(w, sets, es), col, IndexKey(env, now[i][col]));
      }
    }
    forall i, j | 0 <= i < j < |now| ensures Apart(env, schema, now[i], now[j]) {
      assert Apart(env, schema, rows[i], rows[j]);
      forall col | Unique(schema, col) ensures SameIn(rows[i], now[i], col) && SameIn(rows[j], now[j], col) {}
    }
  }

  // -------------------------------------------------------- whole runs

  datatype Stmt =
    | InsertStmt(columns: seq<string>, tuples: seq<seq<InsertExpr>>)
    | DeleteStmt(w: Where)
    | UpdateStmt(w: Where, sets: seq<SetClause>)

  /** A table between statements: its rows, each with the CID its page has now, and its indexes. */
  datatype State = State(es: seq<Entry>, idx: Indexes)

  /** One successful statement; which CIDs the rewritten pages get is left open. */
  ghost predicate Steps(env: Env, schema: Schema, s: State, stmt: Stmt, s': State) {
    Standing(s.idx) &&
    match stmt
    case InsertStmt(columns, tuples) =>
      exists cids: seq<Cid> :: |cids| == |tuples| &&
        var r := InsertRows(env, schema, s.idx, InsertNames(schema, columns), tuples, cids, |tuples|);
        r.Ok? && RowsOf(s'.es) == RowsOf(s.es) + r.value.0 && s'.idx == r.value.1
    case DeleteStmt(w) =>
      KeptRows(w, RowsOf(s.es)) == Ok(RowsOf(s'.es)) && s'.idx == RemoveEntries(env, s.idx, DeletedEntries(w, s.es))
    case UpdateStmt(w, sets) =>
      && UpdatedRows(w, sets, RowsOf(s.es)) == Ok(RowsOf(s'.es))
      && s'.idx == ChangeEntries(env, s.idx, Changes(w, sets, s.es))
  }

  ghost predicate AssignsNoUnique(schema: Schema, stmt: Stmt) {
    stmt.UpdateStmt? ==> forall col :: Unique(schema, col) ==> !Assigns(stmt.sets, col)
  }

  /** A run: each statement succeeds, or fails and leaves the table as it was. */
  ghost predicate IsRun(env: Env, schema: Schema, states: seq<State>, stmts: seq<Stmt>) {
    && |states| == |stmts| + 1
    && states[0] == State([], FreshIndexes(schema))
    && forall i :: 0 <= i < |stmts| ==> StepAt(env, schema, states, stmts, i)
  }

  ghost predicate StepAt(env: Env, schema: Schema, states: seq<State>, stmts: seq<Stmt>, i: nat)
    requires i < |stmts| < |states|
  {
    states[i + 1] == states[i] || Steps(env, schema, states[i], stmts[i], states[i + 1])
  }

  /** The indexes of a table just created: an empty tree for every UNIQUE column. */
  function FreshIndexes(schema: Schema): (idx: Indexes)
    ensures forall col :: Unique(schema, col) ==> col in idx
    ensures forall col :: col in idx ==> idx[col] == EMPTY_TREE
  {
    if schema == [] then map[]
    else
      var n := |schema| - 1;
      var before := FreshIndexes(schema[..n]);
      assert forall col :: Unique(schema, col) && !Unique(schema[..n], col) ==>
        schema[n].unique && schema[n].name == col by {
        forall col | Unique(schema, col) && !Unique(schema[..n], col)
          ensures schema[n].unique && schema[n].name == col
        {
          FindColumnSnoc(schema, col);
        }
      }
      if schema[n].unique then before[schema[n].name := EMPTY_TREE] else before
  }

  lemma {:induction false} FindColumnSnoc(schema: Schema, name: string)
    requires schema != []
    ensures var n := |schema| - 1; var before := FindColumn(schema[..n], name);
      FindColumn(schema, name) == if before.Ok? then before else if schema[n].name == name then Ok(schema[n]) else Err
  {
    var n := |schema| - 1;
    if n > 0 && schema[0].name != name {
      FindColumnSnoc(schema[1..], name);
      assert schema[1..][..n - 1] == schema[..n][1..];
    }
  }

  /** In every state of every run, each value of a UNIQUE column is a key of its index and no two rows share one. */
  lemma {:induction false} UniqueInEveryRun(env: Env, schema: Schema, states: seq<State>, stmts: seq<Stmt>, i: nat)
    requires IsRun(env, schema, states, stmts) && i < |states|
    requires forall j :: 0 <= j < |stmts| ==> AssignsNoUnique(schema, stmts[j])
    ensures Guarded(env, schema, RowsOf(states[i].es), states[i].idx)
  {
    if i == 0 {
      assert Run(Intended, []) == EMPTY_TREE;
      assert Stands(Intended, EMPTY_TREE);
      assert RowsOf([]) == [];
    } else {
      UniqueInEveryRun(env, schema, states, stmts, i - 1);
      assert StepAt(env, schema, states, stmts, i - 1);
      if states[i] != states[i - 1] {
        assert AssignsNoUnique(schema, stmts[i - 1]);
        StepKeepsGuard(env, schema, states[i - 1], stmts[i - 1], states[i]);
      }
    }
  }

  lemma {:induction false} StepKeepsGuard(env: Env, schema: Schema, s: State, stmt: Stmt, s': State)
    requires Guarded(env, schema, RowsOf(s.es), s.idx) && Steps(env, schema, s, stmt, s')
    requires AssignsNoUnique(schema, stmt)
    ensures Guarded(env, schema, RowsOf(s'.es), s'.idx)
  {
    match stmt
    case InsertStmt(columns, tuples) =>
      var names := InsertNames(schema, columns);
      var cids: seq<Cid> :| |cids| == |tuples| &&
        var r := InsertRows(env, schema, s.idx, names, tuples, cids, |tuples|);
        r.Ok? && RowsOf(s'.es) == RowsOf(s.es) + r.value.0 && s'.idx == r.value.1;
      InsertKeepsGuard(env, schema, RowsOf(s.es), s.idx, names, tuples, cids, |tuples|);
    case DeleteStmt(w) => DeleteKeepsGuard(env, schema, s.es, s.idx, w);
    case UpdateStmt(w, sets) => UpdateKeepsGuard(env, schema, s.es, s.idx, w, sets);
  }

  // ------------------------------------- with the index tree as written

  /** The index of one column after inserting rows with these values, one Put each. */
  function InsertOps(keys: seq<Key>, cids: seq<Cid>): seq<Op>
    requires |cids| == |keys|
  {
    seq(|keys|, i requires 0 <= i < |keys| => PutOp(keys[i], cids[i]))
  }

  lemma {:induction false} InsertHistory(keys: seq<Key>, cids: seq<Cid>, q: Key)
    requires |cids| == |keys|
    ensures Clean(AsWritten, InsertOps(keys, cids))
    ensures History(InsertOps(keys, cids), q) != [] <==> q in keys
  {
    if keys != [] {
      var n := |keys| - 1;
      InsertHistory(keys[..n], cids[..n], q);
      assert InsertOps(keys, cids)[..n] == InsertOps(keys[..n], cids[..n]);
      assert keys == keys[..n] + [keys[n]];
    }
  }

  /** With the tree as written, INSERT accepts a value again exactly when a leaf split has moved its key up. */
  lemma {:induction false} AsWrittenAcceptsDuplicates(keys: seq<Key>, cids: seq<Cid>, q: Key)
    requires |cids| == |keys| && q in keys
    ensures Clean(AsWritten, InsertOps(keys, cids))
    ensures Get(Run(AsWritten, InsertOps(keys, cids)), q) == Found([]) <==> WasPromoted(InsertOps(keys, cids), q)
  {
    InsertHistory(keys, cids, q);
    AsWrittenLosesExactlySeparators(InsertOps(keys, cids), q);
    SeparatorsArePromotedKeys(InsertOps(keys, cids), q);
  }
}
