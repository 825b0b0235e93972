/**
 Tables as lists of rows with one index tree per UNIQUE column (pkg/core/row.go,
 pkg/core/index.go, pkg/core/table.go), as functions. TableSteps.dfy has the methods that
 work on pages. Indexes are trees under the intended rule, so an index is its multimap.
 */
module Tables {
  import opened Cells
  import opened Keys
  import opened ProllyTree
  import opened ProllyTreeContents
  import opened ProllyTreeRuns

  type Cid = nat

  datatype Column = Column(name: string, typ: string, notNull: bool, unique: bool)

  type Schema = seq<Column>

  /** What the code calls that is outside this model: `%v` rendering and the cast of a literal to a column type. */
  datatype Env = Env(render: Cell -> string, cast: (string, string) -> Result<Cell>)

  type Indexes = map<string, Tree>

  function IndexKey(env: Env, c: Cell): Key { KeyOf(env.render(c)) }

  /** The first schema column of a name. */
  function FindColumn(schema: Schema, name: string): (c: Result<Column>)
    ensures c.Ok? ==> c.value.name == name && c.value in schema
  {
    if schema == [] then Err else if schema[0].name == name then Ok(schema[0]) else FindColumn(schema[1..], name)
  }

  predicate Unique(schema: Schema, col: string) {
    FindColumn(schema, col).Ok? && FindColumn(schema, col).value.unique
  }

  // ---------------------------------------------------- index upkeep

  ghost predicate Standing(idx: Indexes) {
    forall col :: col in idx ==> Stands(Intended, idx[col])
  }

  /** A row put into every index it has a value for. */
  ghost function PutRow(env: Env, idx: Indexes, row: Row, cid: Cid): (r: Indexes)
    requires Standing(idx)
    ensures Standing(r) && r.Keys == idx.Keys
  {
    var r := map col | col in idx ::
      if col in row then Put(Intended, idx[col], IndexKey(env, row[col]), cid) else idx[col];
    assert forall col :: col in r ==> Stands(Intended, r[col]) by {
      forall col | col in r ensures Stands(Intended, r[col]) {
        if col in row { ApplyStands(Intended, idx[col], PutOp(IndexKey(env, row[col]), cid)); }
      }
    }
    r
  }

  /** A row taken out of every index it has a value for, under the CID of the page it is on. */
  ghost function RemoveRow(env: Env, idx: Indexes, row: Row, cid: Cid): (r: Indexes)
    requires Standing(idx)
    ensures Standing(r) && r.Keys == idx.Keys
  {
    var r := map col | col in idx ::
      if col in row then Delete(Intended, idx[col], IndexKey(env, row[col]), cid) else idx[col];
    assert forall col :: col in r ==> Stands(Intended, r[col]) by {
      forall col | col in r ensures Stands(Intended, r[col]) {
        if col in row { ApplyStands(Intended, idx[col], DeleteOp(IndexKey(env, row[col]), cid)); }
      }
    }
    r
  }

  /** An index answers for the key. */
  ghost predicate Live(idx: Indexes, col: string, k: Key)
    requires col in idx
  {
    Vals(idx[col], k) != []
  }

  lemma {:induction false} LiveIsRead(idx: Indexes, col: string, k: Key)
    requires Standing(idx) && col in idx
    ensures Live(idx, col, k) <==> Read(idx[col], k) != []
    ensures Get(idx[col], k) == Found(Read(idx[col], k))
  {
    GetOnStanding(Intended, idx[col], k);
  }

  lemma {:induction false} PutRowLive(env: Env, idx: Indexes, row: Row, cid: Cid, col: string, k: Key)
    requires Standing(idx) && col in idx
    ensures Live(PutRow(env, idx, row, cid), col, k)
       <==> Live(idx, col, k) || (col in row && IndexKey(env, row[col]) == k)
  {
    if col in row { ApplyVals(Intended, idx[col], PutOp(IndexKey(env, row[col]), cid), k); }
  }

  /** Removal may leave an entry behind when it was stored under another CID; it never touches another key. */
  lemma {:induction false} RemoveRowLive(env: Env, idx: Indexes, row: Row, cid: Cid, col: string, k: Key)
    requires Standing(idx) && col in idx
    ensures Live(RemoveRow(env, idx, row, cid), col, k) ==> Live(idx, col, k)
    ensures Live(idx, col, k) && !(col in row && IndexKey(env, row[col]) == k) ==>
      Live(RemoveRow(env, idx, row, cid), col, k)
  {
    if col in row { ApplyVals(Intended, idx[col], DeleteOp(IndexKey(env, row[col]), cid), k); }
  }

  /** A row of a page, with the page's CID at the time. */
  datatype Entry = Entry(row: Row, cid: Cid)

  ghost function RemoveEntries(env: Env, idx: Indexes, es: seq<Entry>): (r: Indexes)
    requires Standing(idx)
    ensures Standing(r) && r.Keys == idx.Keys
  {
    if es == [] then idx
    else var n := |es| - 1; RemoveRow(env, RemoveEntries(env, idx, es[..n]), es[n].row, es[n].cid)
  }

  /** A row that UPDATE rewrites: as it was, as it becomes, and the CID of its page before. */
  datatype Change = Change(was: Row, now: Row, cid: Cid)

  ghost function ChangeEntries(env: Env, idx: Indexes, cs: seq<Change>): (r: Indexes)
    requires Standing(idx)
    ensures Standing(r) && r.Keys == idx.Keys
  {
    if cs == [] then idx
    else
      var n := |cs| - 1;
      var before := ChangeEntries(env, idx, cs[..n]);
      PutRow(env, RemoveRow(env, before, cs[n].was, cs[n].cid), cs[n].now, cs[n].cid)
  }

  // -------------------------------------------------------- statements

  datatype InsertExpr = Literal(text: string) | NullLiteral | OtherExpr

  /**
   The value of one inserted column: exists, casts, not NULL where forbidden, and not yet in the index where UNIQUE.
   */
  function InsertValue(env: Env, schema: Schema, idx: Indexes, name: string, e: InsertExpr): Result<Cell> {
    var col := FindColumn(schema, name);
    if col.Err? then Err
    else
      var val := if e.Literal? then env.cast(e.text, col.value.typ) else if e.NullLiteral? then Ok(Null) else Err;
      if val.Err? then Err
      else if col.value.notNull && val.value.Null? then Err
      else if !col.value.unique then val
      else if val.value.Null? then Err
      else if name !in idx then Err
      else
        match Get(idx[name], IndexKey(env, val.value))
        case Found(vs) => if |vs| > 0 then Err else val
        case Panic => Err
  }

  /** The row built from the first `n` values of a tuple. */
  function InsertedRow(
    env: Env, schema: Schema, idx: Indexes, names: seq<string>, tuple: seq<InsertExpr>, n: nat): Result<Row>
    requires n <= |names| == |tuple|
  {
    if n == 0 then Ok(map[])
    else
      var before := InsertedRow(env, schema, idx, names, tuple, n - 1);
      if before.Err? then Err
      else
        var v := InsertValue(env, schema, idx, names[n - 1], tuple[n - 1]);
        if v.Err? then Err else Ok(before.value[names[n - 1] := v.value])
  }

  function BuildRow(env: Env, schema: Schema, idx: Indexes, names: seq<string>, tuple: seq<InsertExpr>): Result<Row> {
    if |tuple| != |names| then Err else InsertedRow(env, schema, idx, names, tuple, |names|)
  }

  /** The columns an INSERT names, or else all of the schema. */
  function InsertNames(schema: Schema, columns: seq<string>): seq<string> {
    if columns != [] then columns else seq(|schema|, i requires 0 <= i < |schema| => schema[i].name)
  }

  /** The rows and indexes after inserting the first `n` tuples, given the page CIDs the rows end up under. */
  ghost function InsertRows(
    env: Env, schema: Schema, idx: Indexes, names: seq<string>, tuples: seq<seq<InsertExpr>>, cids: seq<Cid>, n: nat)
    : (r: Result<(seq<Row>, Indexes)>)
    requires Standing(idx) && n <= |tuples| && n <= |cids|
    ensures r.Ok? ==> |r.value.0| == n && Standing(r.value.1) && r.value.1.Keys == idx.Keys
  {
    if n == 0 then Ok(([], idx))
    else
      var before := InsertRows(env, schema, idx, names, tuples, cids, n - 1);
      if before.Err? then Err
      else
        var row := BuildRow(env, schema, before.value.1, names, tuples[n - 1]);
        if row.Err? then Err
        else Ok((before.value.0 + [row.value], PutRow(env, before.value.1, row.value, cids[n - 1])))
  }

  /** A WHERE clause, or none: which rows a statement is about. */
  datatype Where = All | Cond(f: Row -> Result<bool>)

  function Selects(w: Where, row: Row): Result<bool> {
    match w case All => Ok(true) case Cond(f) => f(row)
  }

  /** The rows DELETE keeps, or an error if the condition fails on any row. */
  function KeptRows(w: Where, rows: seq<Row>): Result<seq<Row>> {
    if rows == [] then Ok([])
    else
      var n := |rows| - 1;
      var before, hit := KeptRows(w, rows[..n]), Selects(w, rows[n]);
      if before.Err? || hit.Err? then Err
      else Ok(before.value + if hit.value then [] else [rows[n]])
  }

  /** The entries DELETE takes out of the indexes. */
  function DeletedEntries(w: Where, es: seq<Entry>): seq<Entry> {
    if es == [] then []
    else
      var n := |es| - 1;
      DeletedEntries(w, es[..n]) + if Selects(w, es[n].row) == Ok(true) then [es[n]] else []
  }

  datatype SetClause = SetClause(col: string, value: Row -> Result<Cell>)

  /**
   SET clauses in order, each seeing the row as changed so far. NULL and a COUNT have no stored form here, so setting
   either is an error.
   */
  function SetRow(sets: seq<SetClause>, row: Row): Result<Row> {
    if sets == [] then Ok(row)
    else
      var n := |sets| - 1;
      var before := SetRow(sets[..n], row);
      if before.Err? then Err
      else
        var v := sets[n].value(before.value);
        if v.Err? || !CanStore(v.value) then Err else Ok(before.value[sets[n].col := v.value])
  }

  /** One row under UPDATE. */
  function UpdatedRow(w: Where, sets: seq<SetClause>, row: Row): Result<Row> {
    var hit := Selects(w, row);
    if hit.Err? then Err else if hit.value then SetRow(sets, row) else Ok(row)
  }

  function UpdatedRows(w: Where, sets: seq<SetClause>, rows: seq<Row>): (r: Result<seq<Row>>)
    ensures r.Ok? ==> |r.value| == |rows|
  {
    if rows == [] then Ok([])
    else
      var n := |rows| - 1;
      var before, row := UpdatedRows(w, sets, rows[..n]), UpdatedRow(w, sets, rows[n]);
      if before.Err? || row.Err? then Err else Ok(before.value + [row.value])
  }

  function Changes(w: Where, sets: seq<SetClause>, es: seq<Entry>): seq<Change> {
    if es == [] then []
    else
      var n := |es| - 1;
      var now := UpdatedRow(w, sets, es[n].row);
      Changes(w, sets, es[..n])
      + if Selects(w, es[n].row) == Ok(true) && now.Ok? then [Change(es[n].row, now.value, es[n].cid)] else []
  }

  // -------------------------------------------- what the statements mean

  /** The rows of a list of entries. */
  function RowsOf(es: seq<Entry>): (rows: seq<Row>)
    ensures |rows| == |es| && forall i :: 0 <= i < |es| ==> rows[i] == es[i].row
  {
    seq(|es|, i requires 0 <= i < |es| => es[i].row)
  }

  /** UPDATE succeeds exactly when every row does, and then maps the rows one by one. */
  lemma {:induction false} UpdateMapsRows(w: Where, sets: seq<SetClause>, rows: seq<Row>)
    ensures UpdatedRows(w, sets, rows).Ok? <==> forall i :: 0 <= i < |rows| ==> UpdatedRow(w, sets, rows[i]).Ok?
    ensures UpdatedRows(w, sets, rows).Ok? ==>
      forall i :: 0 <= i < |rows| ==> UpdatedRows(w, sets, rows).value[i] == UpdatedRow(w, sets, rows[i]).value
  {
    if rows != [] {
      var n := |rows| - 1;
      UpdateMapsRows(w, sets, rows[..n]);
      assert forall i :: 0 <= i < n ==> rows[..n][i] == rows[i];
    }
  }

  lemma {:induction false} RowsOfSnoc(es: seq<Entry>)
    requires es != []
    ensures var n := |es| - 1; RowsOf(es)[..n] == RowsOf(es[..n]) && RowsOf(es)[n] == es[n].row
  {
  }

  /** DELETE succeeds exactly when the condition can be evaluated on every row. */
  lemma {:induction false} DeleteSucceeds(w: Where, rows: seq<Row>)
    ensures KeptRows(w, rows).Ok? <==> forall i :: 0 <= i < |rows| ==> Selects(w, rows[i]).Ok?
  {
    if rows != [] {
      var n := |rows| - 1;
      DeleteSucceeds(w, rows[..n]);
      assert forall i :: 0 <= i < n ==> rows[..n][i] == rows[i];
    }
  }

  /** The positions of the rows DELETE keeps: all the rows not selected, in their old order. */
  lemma {:induction false} DeleteFilters(w: Where, rows: seq<Row>) returns (at: seq<nat>)
    requires KeptRows(w, rows).Ok?
    ensures var kept := KeptRows(w, rows).value;
      && |at| == |kept|
      && (forall p :: 0 <= p < |at| ==> at[p] < |rows| && kept[p] == rows[at[p]])
      && (forall p, q :: 0 <= p < q < |at| ==> at[p] < at[q])
      && (forall i :: 0 <= i < |rows| ==> (i in at <==> Selects(w, rows[i]) == Ok(false)))
  {
    if rows == [] {
      at := [];
    } else {
      var n := |rows| - 1;
      var before := DeleteFilters(w, rows[..n]);
      assert forall i :: 0 <= i < n ==> rows[..n][i] == rows[i];
      at := before + if Selects(w, rows[n]) == Ok(true) then [] else [n];
      assert forall p :: 0 <= p < |before| ==> at[p] == before[p];
      forall i | 0 <= i < |rows| ensures i in at <==> Selects(w, rows[i]) == Ok(false) {
        if i < n { assert i in at <==> i in before; }
      }
    }
  }

  /** Every deleted entry was selected, and the counts add up. */
  lemma {:induction false} DeleteCounts(w: Where, es: seq<Entry>)
    requires KeptRows(w, RowsOf(es)).Ok?
    ensures |KeptRows(w, RowsOf(es)).value| + |DeletedEntries(w, es)| == |es|
    ensures forall e :: e in DeletedEntries(w, es) ==> e in es && Selects(w, e.row) == Ok(true)
  {
    if es != [] {
      RowsOfSnoc(es);
      DeleteCounts(w, es[..|es| - 1]);
    }
  }
}
