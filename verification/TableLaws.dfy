/**
 What INSERT and UPDATE put into the rows, said of each column: the values an INSERT lists, cast to the types of their
 columns, and the values the SET clauses give one after another.
 */
module TableLaws {
  import opened Cells
  import opened Keys
  import opened ProllyTree
  import opened Tables
  import opened ProllyTreeContents
  import opened TableRuns
  import U = TableUpdates
  import Seqs

  // ----------------------------------------------------------------- SET

  /** From `r` to `r'` one column is assigned. */
  ghost predicate OneAssigned(r: Row, col: string, v: Cell, r': Row) {
    && (forall c :: c in r' <==> c in r || c == col)
    && r'[col] == v
    && (forall c :: c in r && c != col ==> r'[c] == r[c])
  }

  /** Clause `i` takes the `i`-th row to the next one, by the value its expression has on the `i`-th row. */
  ghost predicate ClauseActs(sets: seq<SetClause>, rs: seq<Row>, i: nat)
    requires i < |sets| && |rs| == |sets| + 1
  {
    var v := sets[i].value(rs[i]);
    v.Ok? && v.value != Null && !v.value.Count? && OneAssigned(rs[i], sets[i].col, v.value, rs[i + 1])
  }

  /** The rows between the clauses, from the old row to the new one. */
  ghost predicate InTurn(sets: seq<SetClause>, row: Row, rs: seq<Row>) {
    |rs| == |sets| + 1 && rs[0] == row && forall i :: 0 <= i < |sets| ==> ClauseActs(sets, rs, i)
  }

  lemma {:induction false} AssignedRow(r: Row, col: string, v: Cell, r': Row)
    ensures OneAssigned(r, col, v, r') <==> r' == r[col := v]
  {
    if OneAssigned(r, col, v, r') {
      assert forall c :: c in r' <==> c in r[col := v];
    }
  }

  lemma {:induction false} ClauseOfPrefix(sets: seq<SetClause>, rs: seq<Row>, n: nat, i: nat)
    requires i < n < |sets| && |rs| == |sets| + 1
    ensures ClauseActs(sets[..n], rs[..n + 1], i) <==> ClauseActs(sets, rs, i)
  {
  }

  lemma {:induction false} InTurnSnoc(sets: seq<SetClause>, row: Row, rs: seq<Row>)
    requires sets != [] && |rs| == |sets| + 1
    ensures var n := |sets| - 1;
      InTurn(sets, row, rs) <==> InTurn(sets[..n], row, rs[..n + 1]) && ClauseActs(sets, rs, n)
  {
    var n := |sets| - 1;
    if InTurn(sets, row, rs) {
      var init, before := sets[..n], rs[..n + 1];
      forall i | 0 <= i < n ensures ClauseActs(init, before, i) {
        assert ClauseActs(sets, rs, i);
        ClauseOfPrefix(sets, rs, n, i);
      }
    }
    if InTurn(sets[..n], row, rs[..n + 1]) && ClauseActs(sets, rs, n) {
      forall i | 0 <= i < |sets| ensures ClauseActs(sets, rs, i) {
        if i < n {
          assert ClauseActs(sets[..n], rs[..n + 1], i);
          ClauseOfPrefix(sets, rs, n, i);
        }
      }
    }
  }

  /** The rows between the clauses, if every clause succeeds. */
  lemma {:induction false} RowsBetween(sets: seq<SetClause>, row: Row) returns (rs: seq<Row>)
    requires SetRow(sets, row).Ok?
    ensures InTurn(sets, row, rs) && rs[|sets|] == SetRow(sets, row).value
  {
    if sets == [] {
      rs := [row];
    } else {
      var n := |sets| - 1;
      var before := RowsBetween(sets[..n], row);
      var now := SetRow(sets, row).value;
      rs := before + [now];
      assert rs[..n + 1] == before;
      AssignedRow(before[n], sets[n].col, sets[n].value(before[n]).value, now);
      InTurnSnoc(sets, row, rs);
    }
  }

  lemma {:induction false} RowsBetweenGive(sets: seq<SetClause>, row: Row, rs: seq<Row>)
    requires InTurn(sets, row, rs)
    ensures SetRow(sets, row) == Ok(rs[|sets|])
  {
    if sets != [] {
      var n := |sets| - 1;
      InTurnSnoc(sets, row, rs);
      RowsBetweenGive(sets[..n], row, rs[..n + 1]);
      assert ClauseActs(sets, rs, n);
      AssignedRow(rs[n], sets[n].col, sets[n].value(rs[n]).value, rs[n + 1]);
    }
  }

  /** SET gives a row if and only if its clauses lead to it in turn, each reading the row the one before it left. */
  lemma {:induction false} SetExactly(sets: seq<SetClause>, row: Row, now: Row)
    ensures SetRow(sets, row) == Ok(now) <==> exists rs :: InTurn(sets, row, rs) && rs[|sets|] == now
  {
    if SetRow(sets, row).Ok? { var rs := RowsBetween(sets, row); }
    if rs :| InTurn(sets, row, rs) && rs[|sets|] == now { RowsBetweenGive(sets, row, rs); }
  }

  /** The last clause that assigns a column decides its value, on the row as the clauses before it left it. */
  lemma {:induction false} LastClauseDecides(sets: seq<SetClause>, row: Row, rs: seq<Row>, i: nat, n: nat)
    requires InTurn(sets, row, rs) && i < n <= |sets|
    requires forall j :: i < j < n ==> sets[j].col != sets[i].col
    ensures sets[i].value(rs[i]).Ok?
    ensures sets[i].col in rs[n] && rs[n][sets[i].col] == sets[i].value(rs[i]).value
  {
    assert ClauseActs(sets, rs, n - 1) && ClauseActs(sets, rs, i);
    if i < n - 1 { LastClauseDecides(sets, row, rs, i, n - 1); }
  }

  /** A column no clause assigns keeps its value. */
  lemma {:induction false} OthersKeepTheirs(sets: seq<SetClause>, row: Row, rs: seq<Row>, n: nat, col: string)
    requires InTurn(sets, row, rs) && n <= |sets| && forall j :: 0 <= j < n ==> sets[j].col != col
    ensures (col in rs[n] <==> col in row) && (col in row ==> rs[n][col] == row[col])
  {
    if n > 0 {
      OthersKeepTheirs(sets, row, rs, n - 1, col);
      assert ClauseActs(sets, rs, n - 1);
    }
  }

  /** SET a = f, b = g: both are assigned, and g reads the new a. */
  lemma {:induction false} TwoClauses(
    a: string, f: Row -> Result<Cell>, b: string, g: Row -> Result<Cell>, row: Row, now: Row)
    requires a != b && SetRow([SetClause(a, f), SetClause(b, g)], row) == Ok(now)
    ensures f(row).Ok? && a in now && now[a] == f(row).value
    ensures var between := row[a := f(row).value]; g(between).Ok? && b in now && now[b] == g(between).value
    ensures forall c :: c != a && c != b ==> (c in now <==> c in row) && (c in row ==> now[c] == row[c])
  {
    var sets := [SetClause(a, f), SetClause(b, g)];
    var rs := RowsBetween(sets, row);
    assert ClauseActs(sets, rs, 0) && ClauseActs(sets, rs, 1);
    AssignedRow(row, a, f(row).value, rs[1]);
  }

  /** UPDATE: a selected row is what the clauses make of it in turn, and any other row is as it was. */
  lemma {:induction false} UpdateMeans(
    env: Env, schema: Schema, s: State, w: Where, sets: seq<SetClause>, s': State, i: nat)
    requires Steps(env, schema, s, UpdateStmt(w, sets), s') && i < |s.es|
    ensures |s'.es| == |s.es| && Selects(w, s.es[i].row).Ok?
    ensures if Selects(w, s.es[i].row).value
            then exists rs :: InTurn(sets, s.es[i].row, rs) && rs[|sets|] == s'.es[i].row
            else s'.es[i].row == s.es[i].row
  {
    var rows := RowsOf(s.es);
    UpdateMapsRows(w, sets, rows);
    assert RowsOf(s'.es)[i] == UpdatedRow(w, sets, rows[i]).value && rows[i] == s.es[i].row;
    assert |RowsOf(s'.es)| == |s'.es|;
    SetExactly(sets, rows[i], s'.es[i].row);
  }

  // -------------------------------------------------------------- INSERT

  /** Column `k` is the first of that name. */
  predicate IsFirst(schema: Schema, name: string, k: nat) {
    k < |schema| && schema[k].name == name && forall j :: 0 <= j < k ==> schema[j].name != name
  }

  lemma {:induction false} FindsFirst(schema: Schema, name: string)
    ensures FindColumn(schema, name).Ok? <==> exists k: nat :: IsFirst(schema, name, k)
    ensures forall k: nat :: IsFirst(schema, name, k) ==> FindColumn(schema, name) == Ok(schema[k])
  {
    if schema != [] {
      FindsFirst(schema[1..], name);
      if schema[0].name == name {
        assert IsFirst(schema, name, 0);
      } else {
        forall k: nat ensures IsFirst(schema, name, k) <==> k > 0 && IsFirst(schema[1..], name, k - 1) {
          FirstInTail(schema, name, k);
        }
        if k: nat :| IsFirst(schema[1..], name, k) { assert IsFirst(schema, name, k + 1); }
      }
    }
  }

  lemma {:induction false} FirstInTail(schema: Schema, name: string, k: nat)
    requires schema != [] && schema[0].name != name
    ensures IsFirst(schema, name, k) <==> k > 0 && IsFirst(schema[1..], name, k - 1)
  {
    if k > 0 && IsFirst(schema[1..], name, k - 1) {
      forall j | 0 <= j < k ensures schema[j].name != name { if j > 0 { assert schema[1..][j - 1] == schema[j]; } }
    }
    if IsFirst(schema, name, k) {
      forall j | 0 <= j < k - 1 ensures schema[1..][j].name != name { assert schema[1..][j] == schema[j + 1]; }
    }
  }

  /** The value listed for a column: a literal cast to the column's type, or NULL. */
  predicate Gives(env: Env, col: Column, e: InsertExpr, v: Cell) {
    (e.Literal? && env.cast(e.text, col.typ) == Ok(v)) || (e.NullLiteral? && v == Null)
  }

  /**
   The column takes the value: not NULL where the column is NOT NULL or UNIQUE, and where it is UNIQUE not a key its
   index answers.
   */
  predicate Takes(env: Env, idx: Indexes, col: Column, v: Cell) {
    && (col.notNull || col.unique ==> v != Null)
    && (col.unique ==> col.name in idx && Get(idx[col.name], KeyOf(env.render(v))) == Found([]))
  }

  /** The column of that name exists and takes what is listed for it. */
  ghost predicate Accepts(env: Env, schema: Schema, idx: Indexes, name: string, e: InsertExpr) {
    exists k: nat, v :: IsFirst(schema, name, k) && Gives(env, schema[k], e, v) && Takes(env, idx, schema[k], v)
  }

  lemma {:induction false} ValueExactly(env: Env, schema: Schema, idx: Indexes, name: string, e: InsertExpr)
    ensures InsertValue(env, schema, idx, name, e).Ok? <==> Accepts(env, schema, idx, name, e)
    ensures var v := InsertValue(env, schema, idx, name, e);
      v.Ok? ==> forall k: nat :: IsFirst(schema, name, k) ==> Gives(env, schema[k], e, v.value)
    ensures var v := InsertValue(env, schema, idx, name, e);
      v.Ok? ==> forall k: nat :: IsFirst(schema, name, k) ==> Takes(env, idx, schema[k], v.value)
  {
    FindsFirst(schema, name);
    if k: nat :| IsFirst(schema, name, k) {
      var r := InsertValue(env, schema, idx, name, e);
      ValueOfColumn(env, schema, idx, schema[k], e);
      assert FindColumn(schema, name) == Ok(schema[k]);
      forall j: nat | IsFirst(schema, name, j) ensures schema[j] == schema[k] {}
    }
  }

  lemma {:induction false} ValueOfColumn(env: Env, schema: Schema, idx: Indexes, col: Column, e: InsertExpr)
    requires FindColumn(schema, col.name) == Ok(col)
    ensures var r := InsertValue(env, schema, idx, col.name, e);
      && (r.Ok? <==> exists v :: Gives(env, col, e, v) && Takes(env, idx, col, v))
      && (r.Ok? ==> Gives(env, col, e, r.value) && Takes(env, idx, col, r.value))
  {
    var r := InsertValue(env, schema, idx, col.name, e);
    var listed := if e.Literal? then env.cast(e.text, col.typ) else if e.NullLiteral? then Ok(Null) else Err;
    assert forall v :: Gives(env, col, e, v) <==> listed == Ok(v);
    if listed.Ok? {
      TakesExactly(env, idx, col, listed.value);
      assert r.Ok? <==> Takes(env, idx, col, listed.value);
      assert r.Ok? ==> r == listed;
    }
  }

  lemma {:induction false} TakesExactly(env: Env, idx: Indexes, col: Column, v: Cell)
    ensures Takes(env, idx, col, v) <==>
      && !(col.notNull && v.Null?)
      && (col.unique ==> !v.Null? && col.name in idx)
      && (col.unique && col.name in idx ==>
            var found := Get(idx[col.name], IndexKey(env, v)); found.Found? && |found.vs| == 0)
  {
  }

  /** Of the first `n` names the `i`-th is the last of its kind. */
  predicate IsLast(names: seq<string>, i: nat, n: nat)
    requires n <= |names|
  {
    i < n && forall j :: i < j < n ==> names[j] != names[i]
  }

  /** What a row holds under one name of an INSERT: what was listed for it, and no NULL in a NOT NULL column. */
  ghost predicate HoldsListed(env: Env, schema: Schema, name: string, e: InsertExpr, row: Row) {
    name in row && forall k: nat :: IsFirst(schema, name, k) ==>
      Gives(env, schema[k], e, row[name]) && (schema[k].notNull ==> row[name] != Null)
  }

  /** The row has exactly the named columns, and in each the value listed last for it. */
  ghost predicate RowIs(env: Env, schema: Schema, names: seq<string>, tuple: seq<InsertExpr>, n: nat, row: Row)
    requires n <= |names| == |tuple|
  {
    && (forall c :: c in row <==> c in names[..n])
    && forall i :: 0 <= i < n && IsLast(names, i, n) ==> HoldsListed(env, schema, names[i], tuple[i], row)
  }

  /** One more value under the last of the names. */
  lemma {:induction false} RowIsSnoc(
    env: Env, schema: Schema, names: seq<string>, tuple: seq<InsertExpr>, m: nat, before: Row, v: Cell)
    requires m < |names| == |tuple| && RowIs(env, schema, names, tuple, m, before)
    requires HoldsListed(env, schema, names[m], tuple[m], before[names[m] := v])
    ensures RowIs(env, schema, names, tuple, m + 1, before[names[m] := v])
  {
    var n, row := m + 1, before[names[m] := v];
    assert names[..n] == names[..m] + [names[m]];
    forall i | 0 <= i < n && IsLast(names, i, n) ensures HoldsListed(env, schema, names[i], tuple[i], row) {
      if i < m {
        assert IsLast(names, i, m) && names[m] != names[i];
        assert HoldsListed(env, schema, names[i], tuple[i], before);
      }
    }
  }

  lemma {:induction false} InsertedRowIs(
    env: Env, schema: Schema, idx: Indexes, names: seq<string>, tuple: seq<InsertExpr>, n: nat)
    requires n <= |names| == |tuple| && InsertedRow(env, schema, idx, names, tuple, n).Ok?
    ensures RowIs(env, schema, names, tuple, n, InsertedRow(env, schema, idx, names, tuple, n).value)
  {
    if n > 0 {
      var m := n - 1;
      InsertedRowIs(env, schema, idx, names, tuple, m);
      var before := InsertedRow(env, schema, idx, names, tuple, m).value;
      ListedValue(env, schema, idx, names[m], tuple[m], before);
      RowIsSnoc(env, schema, names, tuple, m, before, InsertValue(env, schema, idx, names[m], tuple[m]).value);
    }
  }

  lemma {:induction false} ListedValue(
    env: Env, schema: Schema, idx: Indexes, name: string, e: InsertExpr, before: Row)
    requires InsertValue(env, schema, idx, name, e).Ok?
    ensures HoldsListed(env, schema, name, e, before[name := InsertValue(env, schema, idx, name, e).value])
  {
    ValueExactly(env, schema, idx, name, e);
  }

  lemma {:induction false} InsertedRowExactly(
    env: Env, schema: Schema, idx: Indexes, names: seq<string>, tuple: seq<InsertExpr>, n: nat)
    requires n <= |names| == |tuple|
    ensures InsertedRow(env, schema, idx, names, tuple, n).Ok?
       <==> forall i :: 0 <= i < n ==> Accepts(env, schema, idx, names[i], tuple[i])
  {
    if n > 0 {
      InsertedRowExactly(env, schema, idx, names, tuple, n - 1);
      ValueExactly(env, schema, idx, names[n - 1], tuple[n - 1]);
    }
  }

  /** A tuple is accepted when it has a value for every name and every column takes its value. */
  ghost predicate AcceptsAll(env: Env, schema: Schema, idx: Indexes, names: seq<string>, tuple: seq<InsertExpr>) {
    |tuple| == |names| && forall i :: 0 <= i < |names| ==> Accepts(env, schema, idx, names[i], tuple[i])
  }

  /** The row has exactly the named columns, each with the value listed last for it. */
  ghost predicate RowOfTuple(env: Env, schema: Schema, names: seq<string>, tuple: seq<InsertExpr>, row: Row) {
    |tuple| == |names| && RowIs(env, schema, names, tuple, |names|, row)
  }

  /** A tuple gives a row if and only if every column takes its value, and then the row is the one listed. */
  lemma {:induction false} TupleExactly(
    env: Env, schema: Schema, idx: Indexes, names: seq<string>, tuple: seq<InsertExpr>)
    ensures var r := BuildRow(env, schema, idx, names, tuple);
      && (r.Ok? <==> AcceptsAll(env, schema, idx, names, tuple))
      && (r.Ok? ==> RowOfTuple(env, schema, names, tuple, r.value))
  {
    if |tuple| == |names| {
      InsertedRowExactly(env, schema, idx, names, tuple, |names|);
      if BuildRow(env, schema, idx, names, tuple).Ok? { InsertedRowIs(env, schema, idx, names, tuple, |names|); }
    }
  }

  /**
   INSERT of the first `n + 1` tuples succeeds if and only if that of the first `n` does and the indexes then accept the
   next tuple; the row it adds is the one the tuple lists.
   */
  lemma {:induction false} InsertExactly(
    env: Env, schema: Schema, idx: Indexes, names: seq<string>, tuples: seq<seq<InsertExpr>>, cids: seq<Cid>, n: nat)
    requires Standing(idx) && n < |tuples| && n < |cids|
    ensures var before := InsertRows(env, schema, idx, names, tuples, cids, n);
      var after := InsertRows(env, schema, idx, names, tuples, cids, n + 1);
      && (after.Ok? <==> before.Ok? && AcceptsAll(env, schema, before.value.1, names, tuples[n]))
      && (after.Ok? ==> after.value.0[..n] == before.value.0)
      && (after.Ok? ==> RowOfTuple(env, schema, names, tuples[n], after.value.0[n]))
      && (after.Ok? ==> after.value.1 == PutRow(env, before.value.1, after.value.0[n], cids[n]))
  {
    var before := InsertRows(env, schema, idx, names, tuples, cids, n);
    if before.Ok? { TupleExactly(env, schema, before.value.1, names, tuples[n]); }
  }

  /** Each row is the one its tuple lists. */
  ghost predicate AllListed(
    env: Env, schema: Schema, names: seq<string>, tuples: seq<seq<InsertExpr>>, rows: seq<Row>)
  {
    |rows| <= |tuples| && forall i :: 0 <= i < |rows| ==> RowOfTuple(env, schema, names, tuples[i], rows[i])
  }

  lemma {:induction false} OneMoreListed(
    env: Env, schema: Schema, names: seq<string>, tuples: seq<seq<InsertExpr>>, rows: seq<Row>, row: Row)
    requires AllListed(env, schema, names, tuples, rows) && |rows| < |tuples|
    requires RowOfTuple(env, schema, names, tuples[|rows|], row)
    ensures AllListed(env, schema, names, tuples, rows + [row])
  {
  }

  lemma {:induction false} LastInserted(
    env: Env, schema: Schema, idx: Indexes, names: seq<string>, tuples: seq<seq<InsertExpr>>, cids: seq<Cid>, m: nat)
    returns (row: Row)
    requires Standing(idx) && m < |tuples| && m < |cids|
    requires InsertRows(env, schema, idx, names, tuples, cids, m + 1).Ok?
    ensures InsertRows(env, schema, idx, names, tuples, cids, m).Ok?
    ensures InsertRows(env, schema, idx, names, tuples, cids, m + 1).value.0
         == InsertRows(env, schema, idx, names, tuples, cids, m).value.0 + [row]
    ensures RowOfTuple(env, schema, names, tuples[m], row)
  {
    var before := InsertRows(env, schema, idx, names, tuples, cids, m);
    TupleExactly(env, schema, before.value.1, names, tuples[m]);
    row := BuildRow(env, schema, before.value.1, names, tuples[m]).value;
  }

  lemma {:induction false} InsertedRowsAre(
    env: Env, schema: Schema, idx: Indexes, names: seq<string>, tuples: seq<seq<InsertExpr>>, cids: seq<Cid>, n: nat)
    requires Standing(idx) && n <= |tuples| && n <= |cids|
    requires InsertRows(env, schema, idx, names, tuples, cids, n).Ok?
    ensures AllListed(env, schema, names, tuples, InsertRows(env, schema, idx, names, tuples, cids, n).value.0)
  {
    if n > 0 {
      var row := LastInserted(env, schema, idx, names, tuples, cids, n - 1);
      InsertedRowsAre(env, schema, idx, names, tuples, cids, n - 1);
      OneMoreListed(env, schema, names, tuples, InsertRows(env, schema, idx, names, tuples, cids, n - 1).value.0, row);
    }
  }

  /** The columns an INSERT fills: those it names or, naming none, those of the schema in its order. */
  ghost predicate Fills(schema: Schema, columns: seq<string>, names: seq<string>) {
    if columns != [] then names == columns
    else |names| == |schema| && forall i :: 0 <= i < |schema| ==> names[i] == schema[i].name
  }

  lemma {:induction false} NamesFill(schema: Schema, columns: seq<string>)
    ensures Fills(schema, columns, InsertNames(schema, columns))
  {
  }

  /** The old rows are where they were, and the new ones follow. */
  predicate Appended(es: seq<Entry>, es': seq<Entry>, added: seq<Row>) {
    && |es'| == |es| + |added|
    && (forall i :: 0 <= i < |es| ==> es'[i].row == es[i].row)
    && (forall i :: 0 <= i < |added| ==> es'[|es| + i].row == added[i])
  }

  /** INSERT keeps the old rows and appends, for each tuple, the row that it lists. */
  lemma {:induction false} InsertMeans(
    env: Env, schema: Schema, s: State, columns: seq<string>, tuples: seq<seq<InsertExpr>>, s': State)
    returns (names: seq<string>, added: seq<Row>)
    requires Steps(env, schema, s, InsertStmt(columns, tuples), s')
    ensures Fills(schema, columns, names) && |added| == |tuples| && AllListed(env, schema, names, tuples, added)
    ensures Appended(s.es, s'.es, added)
  {
    names := InsertNames(schema, columns);
    NamesFill(schema, columns);
    added := AddedRows(env, schema, s, columns, tuples, s');
    AppendedRows(s.es, s'.es, added);
  }

  lemma {:induction false} AddedRows(
    env: Env, schema: Schema, s: State, columns: seq<string>, tuples: seq<seq<InsertExpr>>, s': State)
    returns (added: seq<Row>)
    requires Steps(env, schema, s, InsertStmt(columns, tuples), s')
    ensures |added| == |tuples| && AllListed(env, schema, InsertNames(schema, columns), tuples, added)
    ensures RowsOf(s'.es) == RowsOf(s.es) + added
  {
    var names := InsertNames(schema, columns);
    var cids: seq<Cid> :| |cids| == |tuples| &&
      var r := InsertRows(env, schema, s.idx, names, tuples, cids, |tuples|);
      r.Ok? && RowsOf(s'.es) == RowsOf(s.es) + r.value.0 && s'.idx == r.value.1;
    InsertedRowsAre(env, schema, s.idx, names, tuples, cids, |tuples|);
    added := InsertRows(env, schema, s.idx, names, tuples, cids, |tuples|).value.0;
  }

  lemma {:induction false} AppendedRows(es: seq<Entry>, es': seq<Entry>, added: seq<Row>)
    requires RowsOf(es') == RowsOf(es) + added
    ensures Appended(es, es', added)
  {
    var rows := RowsOf(es');
    assert |rows| == |es'| && |RowsOf(es)| == |es|;
    forall i | 0 <= i < |es| ensures es'[i].row == es[i].row { assert rows[i] == RowsOf(es)[i]; }
    forall i | 0 <= i < |added| ensures es'[|es| + i].row == added[i] { assert rows[|es| + i] == added[i]; }
  }

  // ---------------------------------------- which index entries a statement touches

  predicate Rising(at: seq<nat>) { forall i, j :: 0 <= i < j < |at| ==> at[i] < at[j] }

  /** `at` lists, in order, the entries the condition selects. */
  ghost predicate Selected(w: Where, es: seq<Entry>, at: seq<nat>) {
    Rising(at) && forall k: nat :: k in at <==> k < |es| && Selects(w, es[k].row) == Ok(true)
  }

  lemma {:induction false} SelectedSnoc(w: Where, es: seq<Entry>, e: Entry, at: seq<nat>) returns (at': seq<nat>)
    requires Selected(w, es, at)
    ensures Selected(w, es + [e], at')
    ensures at' == if Selects(w, e.row) == Ok(true) then at + [|es|] else at
  {
    assert forall i :: 0 <= i < |at| ==> at[i] in at;
    at' := if Selects(w, e.row) == Ok(true) then at + [|es|] else at;
    forall k: nat ensures k in at' <==> k < |es + [e]| && Selects(w, (es + [e])[k].row) == Ok(true) {
      if k < |es| { assert (es + [e])[k] == es[k]; }
    }
  }

  /** DELETE takes out of the indexes exactly the entries it selects, in order. */
  lemma {:induction false} DeletedAre(w: Where, es: seq<Entry>) returns (at: seq<nat>)
    ensures Selected(w, es, at) && |DeletedEntries(w, es)| == |at|
    ensures forall i :: 0 <= i < |at| ==> at[i] < |es| && DeletedEntries(w, es)[i] == es[at[i]]
  {
    if es == [] { return []; }
    var n := |es| - 1;
    var init, e := es[..n], es[n];
    assert es == init + [e];
    var before := DeletedAre(w, init);
    at := SelectedSnoc(w, init, e, before);
  }

  /** The change of entry `k`: its row before and after the statement, under its CID. */
  predicate ChangeOf(es: seq<Entry>, now: seq<Row>, k: nat, c: Change) {
    k < |es| && k < |now| && c.was == es[k].row && c.now == now[k] && c.cid == es[k].cid
  }

  /** The changes of the entries at these places. */
  predicate ChangesAt(es: seq<Entry>, now: seq<Row>, at: seq<nat>, cs: seq<Change>) {
    |cs| == |at| && forall i :: 0 <= i < |at| ==> ChangeOf(es, now, at[i], cs[i])
  }

  lemma {:induction false} ChangesLonger(es: seq<Entry>, now: seq<Row>, at: seq<nat>, cs: seq<Change>, e: Entry, r: Row)
    requires ChangesAt(es, now, at, cs) && |now| == |es|
    ensures ChangesAt(es + [e], now + [r], at, cs)
    ensures ChangesAt(es + [e], now + [r], at + [|es|], cs + [Change(e.row, r, e.cid)])
  {
    forall i | 0 <= i < |at| ensures ChangeOf(es + [e], now + [r], at[i], cs[i]) {
      assert ChangeOf(es, now, at[i], cs[i]);
    }
  }

  /** UPDATE changes exactly the entries it selects, in order, each under the CID it has. */
  lemma {:induction false} ChangedAre(w: Where, sets: seq<SetClause>, es: seq<Entry>) returns (at: seq<nat>)
    requires UpdatedRows(w, sets, RowsOf(es)).Ok?
    ensures Selected(w, es, at)
    ensures ChangesAt(es, UpdatedRows(w, sets, RowsOf(es)).value, at, Changes(w, sets, es))
  {
    if es == [] { return []; }
    var n := |es| - 1;
    var init, e := es[..n], es[n];
    assert es == init + [e];
    RowsOfSnoc(es);
    var now, row := UpdatedRows(w, sets, RowsOf(init)).value, UpdatedRow(w, sets, e.row).value;
    assert UpdatedRows(w, sets, RowsOf(es)) == Ok(now + [row]);
    var before := ChangedAre(w, sets, init);
    at := SelectedSnoc(w, init, e, before);
    ChangesLonger(init, now, before, Changes(w, sets, init), e, row);
    Seqs.Empty(Changes(w, sets, init));
  }

  /** The entry is that of the pair in the column's index. */
  predicate IsEntry(env: Env, e: Entry, col: string, k: Key, cid: Cid) {
    e.cid == cid && col in e.row && IndexKey(env, e.row[col]) == k
  }

  predicate HasEntry(env: Env, es: seq<Entry>, col: string, k: Key, cid: Cid) {
    exists i :: 0 <= i < |es| && IsEntry(env, es[i], col, k, cid)
  }

  lemma {:induction false} OneEntryLess(env: Env, idx: Indexes, e: Entry, col: string, k: Key, cid: Cid)
    requires Standing(idx) && col in idx
    ensures cid in Vals(RemoveRow(env, idx, e.row, e.cid)[col], k)
       <==> cid in Vals(idx[col], k) && !IsEntry(env, e, col, k, cid)
  {
    U.RemoveRowVals(env, idx, e.row, e.cid, col, k);
    WithoutMembers(Vals(idx[col], k), e.cid, cid);
  }

  /** After a DELETE an index has exactly the entries it had, but for those of the deleted rows. */
  lemma {:induction false} EntriesLeft(env: Env, idx: Indexes, es: seq<Entry>, col: string, k: Key, cid: Cid)
    requires Standing(idx) && col in idx
    ensures cid in Vals(RemoveEntries(env, idx, es)[col], k)
       <==> cid in Vals(idx[col], k) && !HasEntry(env, es, col, k, cid)
  {
    if es != [] {
      var init, e := es[..|es| - 1], es[|es| - 1];
      EntriesLeft(env, idx, init, col, k, cid);
      OneEntryLess(env, RemoveEntries(env, idx, init), e, col, k, cid);
      HasEntrySnoc(env, es, col, k, cid);
    }
  }

  lemma {:induction false} HasEntrySnoc(env: Env, es: seq<Entry>, col: string, k: Key, cid: Cid)
    requires es != []
    ensures var n := |es| - 1;
      HasEntry(env, es, col, k, cid) <==> HasEntry(env, es[..n], col, k, cid) || IsEntry(env, es[n], col, k, cid)
  {
    var n := |es| - 1;
    var init := es[..n];
    if i :| 0 <= i < n && IsEntry(env, init[i], col, k, cid) { assert es[i] == init[i]; }
    if i :| 0 <= i < |es| && IsEntry(env, es[i], col, k, cid) { assert i < n ==> es[i] == init[i]; }
  }
}
