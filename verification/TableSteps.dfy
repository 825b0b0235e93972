/**
 INSERT, UPDATE, DELETE and index building as they run (pkg/core/row.go, pkg/core/index.go):
 loops over the pages of a table that load each page by its CID, change its rows and save
 it under another CID. Each is proved against the functions of Tables.dfy.
 */
module TableSteps {
  import opened Cells
  import opened Keys
  import opened ProllyTree
  import opened ProllyTreeRuns
  import opened Tables
  import opened TableRuns
  import opened ProllyTreeContents
  import Seqs

  const MAX_ROWS := 100

  /** The stored pages; saving never changes what a CID stands for. */
  class PageShell {
    var pages: map<Cid, seq<Row>>
    var next: Cid

    predicate Valid() reads this { forall c :: c in pages ==> c < next }

    constructor ()
      ensures Valid() && pages == map[]
    {
      pages, next := map[], 0;
    }

    /** Equal pages need not get equal CIDs: a row is a map, and maps are not written in a fixed order. */
    method AddPage(rows: seq<Row>) returns (cid: Cid)
      requires Valid()
      modifies this
      ensures Valid() && cid in pages && pages[cid] == rows && Grown(old(pages), pages)
    {
      var reuse := *;
      if c: Cid :| reuse && c in pages && pages[c] == rows {
        cid := c;
      } else {
        cid := next;
        pages, next := pages[cid := rows], next + 1;
      }
    }
  }

  predicate Grown(before: map<Cid, seq<Row>>, now: map<Cid, seq<Row>>) {
    forall c :: c in before ==> c in now && now[c] == before[c]
  }

  datatype Table = Table(schema: Schema, pageCids: seq<Cid>, indexes: Indexes)

  /** All pages are stored and hold 1 to 100 rows. */
  predicate PagesOk(pages: map<Cid, seq<Row>>, cids: seq<Cid>) {
    forall i :: 0 <= i < |cids| ==> cids[i] in pages && 1 <= |pages[cids[i]]| <= MAX_ROWS
  }

  /** The rows of one page, each with the page's CID. */
  function PageEntries(rows: seq<Row>, cid: Cid): (es: seq<Entry>)
    ensures |es| == |rows|
  {
    seq(|rows|, i requires 0 <= i < |rows| => Entry(rows[i], cid))
  }

  /** The rows of all pages in order. */
  function Entries(pages: map<Cid, seq<Row>>, cids: seq<Cid>): seq<Entry>
    requires PagesOk(pages, cids)
  {
    if cids == [] then []
    else
      var n := |cids| - 1;
      Entries(pages, cids[..n]) + PageEntries(pages[cids[n]], cids[n])
  }

  /** The list of rows a table stands for. */
  function Rows(pages: map<Cid, seq<Row>>, cids: seq<Cid>): seq<Row>
    requires PagesOk(pages, cids)
  {
    RowsOf(Entries(pages, cids))
  }

  /** A table as the runs of TableRuns.dfy see it. */
  function StateOf(pages: map<Cid, seq<Row>>, t: Table): State
    requires PagesOk(pages, t.pageCids)
  {
    State(Entries(pages, t.pageCids), t.indexes)
  }

  lemma {:induction false} RowsOfAppend(a: seq<Entry>, b: seq<Entry>)
    ensures RowsOf(a + b) == RowsOf(a) + RowsOf(b)
  {
  }

  lemma {:induction false} RowsOfPage(rows: seq<Row>, cid: Cid)
    ensures RowsOf(PageEntries(rows, cid)) == rows
  {
  }

  lemma {:induction false} RowsSnoc(pages: map<Cid, seq<Row>>, cids: seq<Cid>, cid: Cid)
    requires PagesOk(pages, cids + [cid])
    ensures PagesOk(pages, cids) && cid in pages
    ensures Entries(pages, cids + [cid]) == Entries(pages, cids) + PageEntries(pages[cid], cid)
    ensures Rows(pages, cids + [cid]) == Rows(pages, cids) + pages[cid]
  {
    assert (cids + [cid])[..|cids|] == cids && (cids + [cid])[|cids|] == cid;
    forall i | 0 <= i < |cids| ensures cids[i] in pages && 1 <= |pages[cids[i]]| <= MAX_ROWS {
      assert (cids + [cid])[i] == cids[i];
    }
    RowsOfAppend(Entries(pages, cids), PageEntries(pages[cid], cid));
    RowsOfPage(pages[cid], cid);
  }

  /** Old versions of a table stay readable as the store grows. */
  lemma {:induction false} RowsArePersistent(before: map<Cid, seq<Row>>, now: map<Cid, seq<Row>>, cids: seq<Cid>)
    requires PagesOk(before, cids) && Grown(before, now)
    ensures PagesOk(now, cids) && Entries(now, cids) == Entries(before, cids) && Rows(now, cids) == Rows(before, cids)
  {
    if cids != [] { RowsArePersistent(before, now, cids[..|cids| - 1]); }
  }

  // ------------------------------------------------------ index upkeep

  method UpdateIndexesOnInsert(env: Env, idx: Indexes, cid: Cid, row: Row) returns (r: Indexes)
    requires Standing(idx)
    ensures r == PutRow(env, idx, row, cid)
  {
    r := idx;
    var rest := idx.Keys;
    while rest != {}
      invariant rest <= idx.Keys && r.Keys == idx.Keys
      invariant forall col :: col in idx ==> r[col] == if col in rest then idx[col] else PutRow(env, idx, row, cid)[col]
      decreases rest
    {
      var col :| col in rest;
      if col in row {
        r := r[col := Put(Intended, idx[col], IndexKey(env, row[col]), cid)];
      }
      rest := rest - {col};
    }
  }

  method UpdateIndexesOnDelete(env: Env, idx: Indexes, cid: Cid, row: Row) returns (r: Indexes)
    requires Standing(idx)
    ensures r == RemoveRow(env, idx, row, cid)
  {
    r := idx;
    var rest := idx.Keys;
    while rest != {}
      invariant rest <= idx.Keys && r.Keys == idx.Keys
      invariant forall col :: col in idx ==>
        r[col] == if col in rest then idx[col] else RemoveRow(env, idx, row, cid)[col]
      decreases rest
    {
      var col :| col in rest;
      if col in row {
        r := r[col := Delete(Intended, idx[col], IndexKey(env, row[col]), cid)];
      }
      rest := rest - {col};
    }
  }

  // -------------------------------------------------------------- INSERT

  /** One row checked and built, value by value. */
  method BuildInsertedRow(
    env: Env, schema: Schema, idx: Indexes, names: seq<string>, tuple: seq<InsertExpr>) returns (r: Result<Row>)
    ensures r == BuildRow(env, schema, idx, names, tuple)
  {
    if |tuple| != |names| { return Err; }
    var row: Row := map[];
    for i := 0 to |names|
      invariant InsertedRow(env, schema, idx, names, tuple, i) == Ok(row)
    {
      var v := InsertValue(env, schema, idx, names[i], tuple[i]);
      if v.Err? {
        FailedValueFailsRow(env, schema, idx, names, tuple, i + 1, |names|);
        return Err;
      }
      row := row[names[i] := v.value];
    }
    r := Ok(row);
  }

  lemma {:induction false} FailedValueFailsRow(
    env: Env, schema: Schema, idx: Indexes, names: seq<string>, tuple: seq<InsertExpr>, i: nat, n: nat)
    requires i <= n <= |names| == |tuple| && InsertedRow(env, schema, idx, names, tuple, i).Err?
    ensures InsertedRow(env, schema, idx, names, tuple, n).Err?
    decreases n
  {
    if i < n { FailedValueFailsRow(env, schema, idx, names, tuple, i, n - 1); }
  }

  /** A row added to the last page, or to a new one when there is none or it is full. */
  method AppendRow(sh: PageShell, cids: seq<Cid>, row: Row) returns (r: seq<Cid>, cid: Cid)
    requires sh.Valid() && PagesOk(sh.pages, cids)
    modifies sh
    ensures sh.Valid() && Grown(old(sh.pages), sh.pages)
    ensures PagesOk(sh.pages, r) && Rows(sh.pages, r) == Rows(old(sh.pages), cids) + [row]
    ensures |r| > 0 && cid == r[|r| - 1]
  {
    var n := |cids|;
    if n == 0 || |sh.pages[cids[n - 1]]| >= MAX_ROWS {
      r, cid := AddLastPage(sh, cids, [row]);
    } else {
      var last := sh.pages[cids[n - 1]];
      assert cids == cids[..n - 1] + [cids[n - 1]];
      RowsSnoc(sh.pages, cids[..n - 1], cids[n - 1]);
      Seqs.Assoc(Rows(sh.pages, cids[..n - 1]), last, [row]);
      r, cid := AddLastPage(sh, cids[..n - 1], last + [row]);
    }
  }

  /** A page saved after the given ones. */
  method AddLastPage(sh: PageShell, cids: seq<Cid>, rows: seq<Row>) returns (r: seq<Cid>, cid: Cid)
    requires sh.Valid() && PagesOk(sh.pages, cids) && 1 <= |rows| <= MAX_ROWS
    modifies sh
    ensures sh.Valid() && Grown(old(sh.pages), sh.pages)
    ensures r == cids + [cid] && PagesOk(sh.pages, r) && Rows(sh.pages, r) == Rows(old(sh.pages), cids) + rows
  {
    ghost var before := sh.pages;
    cid := sh.AddPage(rows);
    RowsArePersistent(before, sh.pages, cids);
    r := cids + [cid];
    RowsSnoc(sh.pages, cids, cid);
  }

  /** The tuple after those inserted under `cids` does not pass the checks. */
  ghost predicate RejectedNext(
    env: Env, schema: Schema, idx: Indexes, names: seq<string>, tuples: seq<seq<InsertExpr>>, cids: seq<Cid>)
    requires Standing(idx)
  {
    var n := |cids|;
    n < |tuples| &&
    var before := InsertRows(env, schema, idx, names, tuples, cids, n);
    before.Ok? && BuildRow(env, schema, before.value.1, names, tuples[n]).Err?
  }

  /** INSERT: appends the new rows and puts them in the indexes, or fails with nothing changed. */
  method InsertDB(sh: PageShell, env: Env, table: Table, columns: seq<string>, tuples: seq<seq<InsertExpr>>)
    returns (r: Result<Table>, ghost cids: seq<Cid>)
    requires sh.Valid() && PagesOk(sh.pages, table.pageCids) && Standing(table.indexes)
    modifies sh
    ensures sh.Valid() && Grown(old(sh.pages), sh.pages)
    ensures tuples == [] ==> r == Err
    ensures |cids| <= |tuples| && (r.Ok? ==> |cids| == |tuples|)
    ensures r.Ok? ==>
      var want := InsertRows(env, table.schema, table.indexes, InsertNames(table.schema, columns), tuples, cids,
                             |tuples|);
      && want.Ok? && PagesOk(sh.pages, r.value.pageCids) && r.value.schema == table.schema
      && Rows(sh.pages, r.value.pageCids) == Rows(old(sh.pages), table.pageCids) + want.value.0
      && r.value.indexes == want.value.1
    ensures r.Ok? ==>
      Steps(env, table.schema, StateOf(old(sh.pages), table), InsertStmt(columns, tuples), StateOf(sh.pages, r.value))
    ensures r.Err? && tuples != [] ==>
      RejectedNext(env, table.schema, table.indexes, InsertNames(table.schema, columns), tuples, cids)
  {
    cids := [];
    if tuples == [] { return Err, cids; }
    var names := InsertNames(table.schema, columns);
    var pageCids, idx := table.pageCids, table.indexes;
    ghost var added: seq<Row>, start := [], Rows(sh.pages, table.pageCids);
    Seqs.Empty(start);
    for n := 0 to |tuples|
      invariant sh.Valid() && Grown(old(sh.pages), sh.pages) && PagesOk(sh.pages, pageCids)
      invariant |cids| == n && InsertedSoFar(env, table, names, tuples, cids, added, idx)
      invariant Rows(sh.pages, pageCids) == start + added
    {
      InsertedIsStanding(env, table, names, tuples, cids, added, idx);
      var row := BuildInsertedRow(env, table.schema, idx, names, tuples[n]);
      if row.Err? { return Err, cids; }
      var cid;
      pageCids, cid := AppendRow(sh, pageCids, row.value);
      InsertedStep(env, table, names, tuples, cids, added, idx, row.value, cid);
      idx := UpdateIndexesOnInsert(env, idx, cid, row.value);
      cids := cids + [cid];
      Seqs.Assoc(start, added, [row.value]);
      added := added + [row.value];
    }
    r := Ok(Table(table.schema, pageCids, idx));
    InsertIsStep(env, table, columns, tuples, cids, added, idx, StateOf(old(sh.pages), table),
                 StateOf(sh.pages, r.value));
  }

  /** The tuples inserted under `cids` so far: the rows they gave and the indexes after them. */
  ghost predicate InsertedSoFar(
    env: Env, table: Table, names: seq<string>, tuples: seq<seq<InsertExpr>>, cids: seq<Cid>, added: seq<Row>,
    idx: Indexes) {
    && Standing(table.indexes) && |cids| <= |tuples|
    && InsertRows(env, table.schema, table.indexes, names, tuples, cids, |cids|) == Ok((added, idx))
  }

  lemma {:induction false} InsertedIsStanding(
    env: Env, table: Table, names: seq<string>, tuples: seq<seq<InsertExpr>>, cids: seq<Cid>, added: seq<Row>,
    idx: Indexes)
    requires InsertedSoFar(env, table, names, tuples, cids, added, idx)
    ensures Standing(idx)
  {
  }

  lemma {:induction false} InsertedStep(
    env: Env, table: Table, names: seq<string>, tuples: seq<seq<InsertExpr>>, cids: seq<Cid>, added: seq<Row>,
    idx: Indexes, row: Row, cid: Cid)
    requires InsertedSoFar(env, table, names, tuples, cids, added, idx) && |cids| < |tuples|
    requires BuildRow(env, table.schema, idx, names, tuples[|cids|]) == Ok(row)
    ensures Standing(idx)
    ensures InsertedSoFar(env, table, names, tuples, cids + [cid], added + [row], PutRow(env, idx, row, cid))
  {
    InsertRowsPrefix(env, table.schema, table.indexes, names, tuples, cids, [cid], |cids|);
    assert (cids + [cid])[|cids|] == cid;
  }

  lemma {:induction false} InsertIsStep(
    env: Env, table: Table, columns: seq<string>, tuples: seq<seq<InsertExpr>>, cids: seq<Cid>, added: seq<Row>,
    idx: Indexes, before: State, after: State)
    requires InsertedSoFar(env, table, InsertNames(table.schema, columns), tuples, cids, added, idx)
    requires |cids| == |tuples|
    requires before.idx == table.indexes && RowsOf(after.es) == RowsOf(before.es) + added && after.idx == idx
    ensures Steps(env, table.schema, before, InsertStmt(columns, tuples), after)
  {
  }

  lemma {:induction false} InsertRowsPrefix(env: Env, schema: Schema, idx: Indexes, names: seq<string>,
                                            tuples: seq<seq<InsertExpr>>, cids: seq<Cid>, more: seq<Cid>, n: nat)
    requires Standing(idx) && n <= |tuples| && n <= |cids|
    ensures InsertRows(env, schema, idx, names, tuples, cids + more, n)
         == InsertRows(env, schema, idx, names, tuples, cids, n)
  {
    if n > 0 {
      InsertRowsPrefix(env, schema, idx, names, tuples, cids, more, n - 1);
      assert (cids + more)[n - 1] == cids[n - 1];
    }
  }

  // -------------------------------------------------------------- DELETE

  lemma {:induction false} KeptAppend(w: Where, a: seq<Row>, b: seq<Row>)
    ensures var x, y := KeptRows(w, a), KeptRows(w, b);
      KeptRows(w, a + b) == if x.Err? || y.Err? then Err else Ok(x.value + y.value)
  {
    if b == [] {
      assert a + b == a;
      if KeptRows(w, a).Ok? { Seqs.Empty(KeptRows(w, a).value); }
    } else {
      var n := |b| - 1;
      KeptAppend(w, a, b[..n]);
      assert (a + b)[..|a| + n] == a + b[..n] && (a + b)[|a| + n] == b[n];
      var x, y := KeptRows(w, a), KeptRows(w, b[..n]);
      if x.Ok? && y.Ok? { Seqs.Assoc(x.value, y.value, if Selects(w, b[n]) == Ok(true) then [] else [b[n]]); }
    }
  }

  lemma {:induction false} DeletedAppend(w: Where, a: seq<Entry>, b: seq<Entry>)
    ensures DeletedEntries(w, a + b) == DeletedEntries(w, a) + DeletedEntries(w, b)
  {
    if b == [] {
      assert a + b == a;
      Seqs.Empty(DeletedEntries(w, a));
    } else {
      var n := |b| - 1;
      DeletedAppend(w, a, b[..n]);
      assert (a + b)[..|a| + n] == a + b[..n] && (a + b)[|a| + n] == b[n];
      Seqs.Assoc(DeletedEntries(w, a), DeletedEntries(w, b[..n]),
                 if Selects(w, b[n].row) == Ok(true) then [b[n]] else []);
    }
  }

  lemma {:induction false} RemoveSnoc(env: Env, idx: Indexes, es: seq<Entry>, e: Entry)
    requires Standing(idx)
    ensures RemoveEntries(env, idx, es + [e]) == RemoveRow(env, RemoveEntries(env, idx, es), e.row, e.cid)
  {
    assert (es + [e])[..|es|] == es;
  }

  lemma {:induction false} RemoveAppend(env: Env, idx: Indexes, a: seq<Entry>, b: seq<Entry>)
    requires Standing(idx)
    ensures RemoveEntries(env, idx, a + b) == RemoveEntries(env, RemoveEntries(env, idx, a), b)
  {
    if b == [] {
      assert a + b == a;
    } else {
      var n := |b| - 1;
      RemoveAppend(env, idx, a, b[..n]);
      assert a + b == a + b[..n] + [b[n]] && b == b[..n] + [b[n]];
      RemoveSnoc(env, idx, a + b[..n], b[n]);
      RemoveSnoc(env, RemoveEntries(env, idx, a), b[..n], b[n]);
    }
  }

  /** The rows of one page: those kept, how many go, and the indexes without them. */
  method DeleteInPage(
    env: Env, idx: Indexes, w: Where, rows: seq<Row>, cid: Cid) returns (r: Result<(seq<Row>, Indexes)>, count: nat)
    requires Standing(idx)
    ensures r.Ok? <==> KeptRows(w, rows).Ok?
    ensures r.Ok? ==>
      var gone := DeletedEntries(w, PageEntries(rows, cid));
      r.value.0 == KeptRows(w, rows).value && count == |gone| && r.value.1 == RemoveEntries(env, idx, gone)
  {
    var newRows, now := [], idx;
    count := 0;
    ghost var es := PageEntries(rows, cid);
    assert rows[..0] == [] && es[..0] == [];
    for j := 0 to |rows|
      invariant KeptRows(w, rows[..j]) == Ok(newRows) && count == |DeletedEntries(w, es[..j])|
      invariant Standing(now) && now == RemoveEntries(env, idx, DeletedEntries(w, es[..j]))
    {
      RowJoins(w, rows, es, j);
      var hit := Selects(w, rows[j]);
      if hit.Err? {
        DeleteSucceeds(w, rows);
        return Err, 0;
      }
      Seqs.Empty(newRows);
      if hit.value {
        count := count + 1;
        RemoveSnoc(env, idx, DeletedEntries(w, es[..j]), es[j]);
        now := UpdateIndexesOnDelete(env, now, cid, rows[j]);
      } else {
        newRows := newRows + [rows[j]];
      }
    }
    assert rows[..|rows|] == rows && es[..|rows|] == es;
    r := Ok((newRows, now));
  }

  /** One more row looked at. */
  lemma {:induction false} RowJoins(w: Where, rows: seq<Row>, es: seq<Entry>, j: nat)
    requires j < |rows| == |es| && es[j].row == rows[j] && KeptRows(w, rows[..j]).Ok?
    ensures Selects(w, rows[j]).Ok? ==>
      KeptRows(w, rows[..j + 1]) ==
      Ok(KeptRows(w, rows[..j]).value + if Selects(w, rows[j]).value then [] else [rows[j]])
    ensures DeletedEntries(w, es[..j + 1])
         == if Selects(w, rows[j]) == Ok(true) then DeletedEntries(w, es[..j]) + [es[j]] else DeletedEntries(w, es[..j])
  {
    assert rows[..j + 1][..j] == rows[..j] && es[..j + 1][..j] == es[..j];
  }

  /** What DELETE has done after the pages `cids`. */
  ghost predicate DeletedSoFar(
    env: Env, idx: Indexes, w: Where, es: seq<Entry>, kept: seq<Row>, now: Indexes, count: nat)
    requires Standing(idx)
  {
    && KeptRows(w, RowsOf(es)) == Ok(kept)
    && now == RemoveEntries(env, idx, DeletedEntries(w, es)) && count == |DeletedEntries(w, es)|
  }

  lemma {:induction false} DeleteExtends(
    env: Env, idx: Indexes, w: Where, es: seq<Entry>, kept: seq<Row>, now: Indexes, count: nat, page: seq<Entry>,
    pageKept: seq<Row>, then': Indexes, pageCount: nat)
    requires Standing(idx) && Standing(now)
    requires DeletedSoFar(env, idx, w, es, kept, now, count)
    requires DeletedSoFar(env, now, w, page, pageKept, then', pageCount)
    ensures DeletedSoFar(env, idx, w, es + page, kept + pageKept, then', count + pageCount)
  {
    RowsOfAppend(es, page);
    KeptAppend(w, RowsOf(es), RowsOf(page));
    DeletedAppend(w, es, page);
    RemoveAppend(env, idx, DeletedEntries(w, es), DeletedEntries(w, page));
  }

  /** DELETE: filters the rows page by page; untouched pages keep their CID and empty ones go. */
  method DeleteDB(sh: PageShell, env: Env, table: Table, w: Where) returns (r: Result<Table>, count: nat)
    requires sh.Valid() && PagesOk(sh.pages, table.pageCids) && Standing(table.indexes)
    modifies sh
    ensures sh.Valid() && Grown(old(sh.pages), sh.pages)
    ensures r.Ok? <==> KeptRows(w, Rows(old(sh.pages), table.pageCids)).Ok?
    ensures r.Ok? ==>
      var es := Entries(old(sh.pages), table.pageCids);
      && PagesOk(sh.pages, r.value.pageCids) && r.value.schema == table.schema
      && Rows(sh.pages, r.value.pageCids) == KeptRows(w, RowsOf(es)).value
      && r.value.indexes == RemoveEntries(env, table.indexes, DeletedEntries(w, es))
      && count == |DeletedEntries(w, es)|
      && (count == 0 ==> r.value == table)
    ensures r.Ok? ==> Steps(env, table.schema, StateOf(old(sh.pages), table), DeleteStmt(w), StateOf(sh.pages, r.value))
  {
    ghost var before := sh.pages;
    var p;
    p, count := DeletePages(sh, env, table, w);
    if p.Err? { return Err, 0; }
    DeletedPagesEnd(env, table, w, before, sh.pages, p.value.0, p.value.1, count);
    r := Ok(UpdatedTable(table, p.value.0, p.value.1, count));
  }

  /** DELETE on all pages in turn. */
  method DeletePages(
    sh: PageShell, env: Env, table: Table, w: Where) returns (r: Result<(seq<Cid>, Indexes)>, count: nat)
    requires sh.Valid() && PagesOk(sh.pages, table.pageCids) && Standing(table.indexes)
    modifies sh
    ensures sh.Valid() && Grown(old(sh.pages), sh.pages)
    ensures r.Err? ==> KeptRows(w, Rows(old(sh.pages), table.pageCids)).Err?
    ensures r.Ok? ==>
      DeletedPages(env, table, w, old(sh.pages), sh.pages, |table.pageCids|, r.value.0, r.value.1, count)
  {
    count := 0;
    var newCids: seq<Cid>, idx := [], table.indexes;
    ghost var before := sh.pages;
    DeletedPagesStart(env, table, w, before);
    for i := 0 to |table.pageCids|
      invariant sh.Valid() && DeletedPages(env, table, w, before, sh.pages, i, newCids, idx, count)
    {
      var p, n := DeletePage(sh, env, table, w, before, i, newCids, idx, count);
      if p.Err? { return Err, 0; }
      newCids, idx := p.value.0, p.value.1;
      count := count + n;
    }
    r := Ok((newCids, idx));
  }

  lemma {:induction false} DeletedPagesStart(env: Env, table: Table, w: Where, before: map<Cid, seq<Row>>)
    requires PagesOk(before, table.pageCids) && Standing(table.indexes)
    ensures DeletedPages(env, table, w, before, before, 0, [], table.indexes, 0)
  {
    assert table.pageCids[..0] == [];
  }

  /** DELETE on page `i`: the kept rows under a new CID, the indexes, and how many rows went. */
  method DeletePage(sh: PageShell, env: Env, table: Table, w: Where, ghost before: map<Cid, seq<Row>>, i: nat,
                    newCids: seq<Cid>, idx: Indexes, ghost count: nat) returns (r: Result<(seq<Cid>, Indexes)>, n: nat)
    requires sh.Valid() && DeletedPages(env, table, w, before, sh.pages, i, newCids, idx, count) && i < |table.pageCids|
    modifies sh
    ensures sh.Valid() && Grown(before, sh.pages)
    ensures r.Err? ==> KeptRows(w, Rows(before, table.pageCids)).Err?
    ensures r.Ok? ==> DeletedPages(env, table, w, before, sh.pages, i + 1, r.value.0, r.value.1, count + n)
  {
    var cid := table.pageCids[i];
    var rows := sh.pages[cid];
    ghost var pages := sh.pages;
    var p;
    p, n := DeleteInPage(env, idx, w, rows, cid);
    if p.Err? {
      DeleteFailsInPage(w, before, table.pageCids, i);
      return Err, 0;
    }
    DeletedPage(env, idx, w, rows, cid, p.value.0, p.value.1, n);
    var saved := SavePage(sh, newCids, cid, rows, p.value.0, n > 0);
    DeletedPagesStep(env, table, w, before, pages, i, newCids, idx, count, sh.pages, saved, p.value.0, p.value.1, n);
    r := Ok((saved, p.value.1));
  }

  /** What DELETE has done after the first `i` pages. */
  ghost predicate DeletedPages(
    env: Env, table: Table, w: Where, before: map<Cid, seq<Row>>, pages: map<Cid, seq<Row>>, i: nat, newCids: seq<Cid>,
    idx: Indexes, count: nat) {
    var cids := table.pageCids;
    && PagesOk(before, cids) && i <= |cids| && PagesOk(before, cids[..i])
    && Grown(before, pages) && PagesOk(pages, newCids)
    && Standing(table.indexes) && Standing(idx) && (count == 0 ==> newCids == cids[..i])
    && DeletedSoFar(env, table.indexes, w, Entries(before, cids[..i]), Rows(pages, newCids), idx, count)
  }

  lemma {:induction false} DeletedPagesStep(
    env: Env, table: Table, w: Where, before: map<Cid, seq<Row>>, pages: map<Cid, seq<Row>>, i: nat, newCids: seq<Cid>,
    idx: Indexes, count: nat, pages': map<Cid, seq<Row>>, newCids': seq<Cid>, kept: seq<Row>, idx': Indexes, n: nat)
    requires DeletedPages(env, table, w, before, pages, i, newCids, idx, count) && i < |table.pageCids|
    requires Grown(pages, pages') && PagesOk(pages', newCids') && Rows(pages', newCids') == Rows(pages, newCids) + kept
    requires Standing(idx') && (n == 0 ==> newCids' == newCids + [table.pageCids[i]])
    requires DeletedSoFar(env, idx, w, PageEntries(before[table.pageCids[i]], table.pageCids[i]), kept, idx', n)
    ensures DeletedPages(env, table, w, before, pages', i + 1, newCids', idx', count + n)
  {
    var cids := table.pageCids;
    NextPage(before, cids, i);
    DeleteExtends(env, table.indexes, w, Entries(before, cids[..i]), Rows(pages, newCids), idx, count,
                  PageEntries(before[cids[i]], cids[i]), kept, idx', n);
  }

  lemma {:induction false} DeletedPagesEnd(
    env: Env, table: Table, w: Where, before: map<Cid, seq<Row>>, pages: map<Cid, seq<Row>>, newCids: seq<Cid>,
    idx: Indexes, count: nat)
    requires DeletedPages(env, table, w, before, pages, |table.pageCids|, newCids, idx, count)
    ensures var es, t := Entries(before, table.pageCids), UpdatedTable(table, newCids, idx, count);
      && KeptRows(w, RowsOf(es)).Ok?
      && PagesOk(pages, t.pageCids) && t.schema == table.schema
      && Rows(pages, t.pageCids) == KeptRows(w, RowsOf(es)).value
      && t.indexes == RemoveEntries(env, table.indexes, DeletedEntries(w, es))
      && count == |DeletedEntries(w, es)|
      && Steps(env, table.schema, StateOf(before, table), DeleteStmt(w), StateOf(pages, t))
  {
    var cids := table.pageCids;
    assert cids[..|cids|] == cids;
    if count == 0 { NothingRemoved(env, table.indexes, DeletedEntries(w, Entries(before, cids))); }
  }

  /** One page: what was kept and counted, and nothing lost where nothing was selected. */
  lemma {:induction false} DeletedPage(
    env: Env, idx: Indexes, w: Where, rows: seq<Row>, cid: Cid, kept: seq<Row>, now: Indexes, n: nat)
    requires Standing(idx) && KeptRows(w, rows) == Ok(kept)
    requires var gone := DeletedEntries(w, PageEntries(rows, cid)); n == |gone| && now == RemoveEntries(env, idx, gone)
    ensures DeletedSoFar(env, idx, w, PageEntries(rows, cid), kept, now, n)
    ensures |kept| <= |rows| && (n == 0 ==> kept == rows)
  {
    var page := PageEntries(rows, cid);
    RowsOfPage(rows, cid);
    DeleteCounts(w, page);
    if n == 0 { DeleteNone(w, page); }
  }

  lemma {:induction false} DeleteFailsInPage(w: Where, pages: map<Cid, seq<Row>>, cids: seq<Cid>, i: nat)
    requires PagesOk(pages, cids) && i < |cids| && KeptRows(w, pages[cids[i]]).Err?
    ensures KeptRows(w, Rows(pages, cids)).Err?
  {
    NextPage(pages, cids, i);
    var es, page := Entries(pages, cids[..i]), PageEntries(pages[cids[i]], cids[i]);
    RowsOfAppend(es, page);
    RowsOfPage(pages[cids[i]], cids[i]);
    KeptAppend(w, RowsOf(es), RowsOf(page));
    PrefixFails(w, pages, cids, i + 1);
  }

  lemma {:induction false} NextPage(pages: map<Cid, seq<Row>>, cids: seq<Cid>, i: nat)
    requires PagesOk(pages, cids) && i < |cids|
    ensures PagesOk(pages, cids[..i]) && PagesOk(pages, cids[..i + 1]) && cids[i] in pages
    ensures Entries(pages, cids[..i + 1]) == Entries(pages, cids[..i]) + PageEntries(pages[cids[i]], cids[i])
    ensures cids[..i + 1] == cids[..i] + [cids[i]]
  {
    assert cids[..i + 1] == cids[..i] + [cids[i]];
    RowsSnoc(pages, cids[..i], cids[i]);
  }

  /** Without a selected row every row is kept. */
  lemma {:induction false} DeleteNone(w: Where, es: seq<Entry>)
    requires KeptRows(w, RowsOf(es)).Ok? && DeletedEntries(w, es) == []
    ensures KeptRows(w, RowsOf(es)).value == RowsOf(es)
  {
    if es != [] {
      RowsOfSnoc(es);
      DeleteNone(w, es[..|es| - 1]);
    }
  }

  lemma {:induction false} NothingRemoved(env: Env, idx: Indexes, es: seq<Entry>)
    requires Standing(idx) && es == []
    ensures RemoveEntries(env, idx, es) == idx
  {
  }

  /** The next page of the result: none if all its rows went, the old one if none did. */
  method SavePage(sh: PageShell, cids: seq<Cid>, cid: Cid, rows: seq<Row>, kept: seq<Row>, modified: bool)
    returns (r: seq<Cid>)
    requires sh.Valid() && PagesOk(sh.pages, cids) && cid in sh.pages && sh.pages[cid] == rows
    requires 1 <= |rows| <= MAX_ROWS
    requires |kept| <= |rows| && (!modified ==> kept == rows)
    modifies sh
    ensures sh.Valid() && Grown(old(sh.pages), sh.pages)
    ensures PagesOk(sh.pages, r) && Rows(sh.pages, r) == Rows(old(sh.pages), cids) + kept
    ensures !modified ==> r == cids + [cid]
  {
    if !modified {
      r := cids + [cid];
      RowsSnoc(sh.pages, cids, cid);
    } else if |kept| > 0 {
      var newCid;
      r, newCid := AddLastPage(sh, cids, kept);
    } else {
      r := cids;
      Seqs.Empty(Rows(sh.pages, cids));
    }
  }

  /** A page on which the condition fails makes it fail on the whole table. */
  lemma {:induction false} PrefixFails(w: Where, pages: map<Cid, seq<Row>>, cids: seq<Cid>, i: nat)
    requires PagesOk(pages, cids) && i <= |cids| && PagesOk(pages, cids[..i])
    requires KeptRows(w, Rows(pages, cids[..i])).Err?
    ensures KeptRows(w, Rows(pages, cids)).Err?
    decreases |cids|
  {
    if i == |cids| {
      assert cids[..i] == cids;
    } else {
      var n := |cids| - 1;
      assert cids == cids[..n] + [cids[n]] && cids[..n][..i] == cids[..i];
      RowsSnoc(pages, cids[..n], cids[n]);
      PrefixFails(w, pages, cids[..n], i);
      KeptAppend(w, Rows(pages, cids[..n]), pages[cids[n]]);
    }
  }

  // -------------------------------------------------------------- UPDATE

  lemma {:induction false} UpdatedAppend(w: Where, sets: seq<SetClause>, a: seq<Row>, b: seq<Row>)
    ensures UpdatedRows(w, sets, a + b)
         == var x, y := UpdatedRows(w, sets, a), UpdatedRows(w, sets, b);
            if x.Err? || y.Err? then Err else Ok(x.value + y.value)
  {
    if b == [] {
      assert a + b == a;
      if UpdatedRows(w, sets, a).Ok? { Seqs.Empty(UpdatedRows(w, sets, a).value); }
    } else {
      var n := |b| - 1;
      UpdatedAppend(w, sets, a, b[..n]);
      assert (a + b)[..|a| + n] == a + b[..n] && (a + b)[|a| + n] == b[n];
      var x, y, z := UpdatedRows(w, sets, a), UpdatedRows(w, sets, b[..n]), UpdatedRow(w, sets, b[n]);
      if x.Ok? && y.Ok? && z.Ok? { Seqs.Assoc(x.value, y.value, [z.value]); }
    }
  }

  lemma {:induction false} ChangesAppend(w: Where, sets: seq<SetClause>, a: seq<Entry>, b: seq<Entry>)
    ensures Changes(w, sets, a + b) == Changes(w, sets, a) + Changes(w, sets, b)
  {
    if b == [] {
      assert a + b == a;
      Seqs.Empty(Changes(w, sets, a));
    } else {
      var n := |b| - 1;
      ChangesAppend(w, sets, a, b[..n]);
      assert (a + b)[..|a| + n] == a + b[..n] && (a + b)[|a| + n] == b[n];
      var now := UpdatedRow(w, sets, b[n].row);
      Seqs.Assoc(Changes(w, sets, a), Changes(w, sets, b[..n]),
                 if Selects(w, b[n].row) == Ok(true) && now.Ok? then [Change(b[n].row, now.value, b[n].cid)] else []);
    }
  }

  lemma {:induction false} ChangeSnoc(env: Env, idx: Indexes, cs: seq<Change>, c: Change)
    requires Standing(idx)
    ensures ChangeEntries(env, idx, cs + [c])
         == PutRow(env, RemoveRow(env, ChangeEntries(env, idx, cs), c.was, c.cid), c.now, c.cid)
  {
    assert (cs + [c])[..|cs|] == cs;
  }

  lemma {:induction false} ChangeAppend(env: Env, idx: Indexes, a: seq<Change>, b: seq<Change>)
    requires Standing(idx)
    ensures ChangeEntries(env, idx, a + b) == ChangeEntries(env, ChangeEntries(env, idx, a), b)
  {
    if b == [] {
      assert a + b == a;
    } else {
      var n := |b| - 1;
      ChangeAppend(env, idx, a, b[..n]);
      assert a + b == a + b[..n] + [b[n]] && b == b[..n] + [b[n]];
      ChangeSnoc(env, idx, a + b[..n], b[n]);
      ChangeSnoc(env, ChangeEntries(env, idx, a), b[..n], b[n]);
    }
  }

  /** What UPDATE has done after some rows. */
  ghost predicate UpdatedSoFar(
    env: Env, idx: Indexes, w: Where, sets: seq<SetClause>, es: seq<Entry>, rows: seq<Row>, now: Indexes, count: nat)
    requires Standing(idx)
  {
    && UpdatedRows(w, sets, RowsOf(es)) == Ok(rows) && now == ChangeEntries(env, idx, Changes(w, sets, es))
    && count == |Changes(w, sets, es)|
  }

  lemma {:induction false} UpdateExtends(
    env: Env, idx: Indexes, w: Where, sets: seq<SetClause>, es: seq<Entry>, rows: seq<Row>, now: Indexes, count: nat,
    page: seq<Entry>, pageRows: seq<Row>, then': Indexes, pageCount: nat)
    requires Standing(idx) && Standing(now)
    requires UpdatedSoFar(env, idx, w, sets, es, rows, now, count)
    requires UpdatedSoFar(env, now, w, sets, page, pageRows, then', pageCount)
    ensures UpdatedSoFar(env, idx, w, sets, es + page, rows + pageRows, then', count + pageCount)
  {
    RowsOfAppend(es, page);
    UpdatedAppend(w, sets, RowsOf(es), RowsOf(page));
    ChangesAppend(w, sets, es, page);
    ChangeAppend(env, idx, Changes(w, sets, es), Changes(w, sets, page));
  }

  /** The SET clauses applied to one row, in order. */
  method ApplySets(sets: seq<SetClause>, row: Row) returns (r: Result<Row>)
    ensures r == SetRow(sets, row)
  {
    var now := row;
    assert sets[..0] == [];
    for i := 0 to |sets|
      invariant SetRow(sets[..i], row) == Ok(now)
    {
      assert sets[..i + 1][..i] == sets[..i];
      var v := sets[i].value(now);
      if v.Err? || !CanStore(v.value) {
        FailedSetFails(sets, row, i + 1);
        return Err;
      }
      now := now[sets[i].col := v.value];
    }
    assert sets[..|sets|] == sets;
    r := Ok(now);
  }

  lemma {:induction false} FailedSetFails(sets: seq<SetClause>, row: Row, i: nat)
    requires i <= |sets| && SetRow(sets[..i], row).Err?
    ensures SetRow(sets, row).Err?
    decreases |sets|
  {
    if i == |sets| {
      assert sets[..i] == sets;
    } else {
      var n := |sets| - 1;
      assert sets[..n][..i] == sets[..i];
      FailedSetFails(sets[..n], row, i);
    }
  }

  /** One more row looked at. */
  lemma {:induction false} ChangeJoins(w: Where, sets: seq<SetClause>, rows: seq<Row>, es: seq<Entry>, j: nat)
    requires j < |rows| == |es| && es[j].row == rows[j] && UpdatedRows(w, sets, rows[..j]).Ok?
    ensures var now := UpdatedRow(w, sets, rows[j]);
      && (now.Ok? ==> UpdatedRows(w, sets, rows[..j + 1]) == Ok(UpdatedRows(w, sets, rows[..j]).value + [now.value]))
      && Changes(w, sets, es[..j + 1]) == Changes(w, sets, es[..j])
           + if Selects(w, rows[j]) == Ok(true) && now.Ok? then [Change(rows[j], now.value, es[j].cid)] else []
  {
    assert rows[..j + 1][..j] == rows[..j] && es[..j + 1][..j] == es[..j];
  }

  /** What UPDATE has done after the first `j` rows of a page. */
  ghost predicate UpdatedInPage(
    env: Env, idx: Indexes, w: Where, sets: seq<SetClause>, rows: seq<Row>, es: seq<Entry>, j: nat, newRows: seq<Row>,
    now: Indexes, count: nat)
    requires j <= |rows| == |es|
  {
    && Standing(idx) && Standing(now) && UpdatedRows(w, sets, rows[..j]) == Ok(newRows)
    && now == ChangeEntries(env, idx, Changes(w, sets, es[..j])) && count == |Changes(w, sets, es[..j])|
  }

  lemma {:induction false} UpdatedInPageStarts(
    env: Env, idx: Indexes, w: Where, sets: seq<SetClause>, rows: seq<Row>, es: seq<Entry>)
    requires |rows| == |es| && Standing(idx)
    ensures UpdatedInPage(env, idx, w, sets, rows, es, 0, [], idx, 0)
  {
    assert rows[..0] == [] && es[..0] == [];
  }

  lemma {:induction false} UpdatedInPageStep(
    env: Env, idx: Indexes, w: Where, sets: seq<SetClause>, rows: seq<Row>, es: seq<Entry>, j: nat, newRows: seq<Row>,
    now: Indexes, count: nat, row: Row)
    requires j < |rows| == |es| && es[j].row == rows[j]
    requires UpdatedInPage(env, idx, w, sets, rows, es, j, newRows, now, count)
    requires Selects(w, rows[j]).Ok? && UpdatedRow(w, sets, rows[j]) == Ok(row)
    ensures Selects(w, rows[j]).value ==>
      UpdatedInPage(env, idx, w, sets, rows, es, j + 1, newRows + [row],
                    PutRow(env, RemoveRow(env, now, rows[j], es[j].cid), row, es[j].cid), count + 1)
    ensures !Selects(w, rows[j]).value ==>
      row == rows[j] && UpdatedInPage(env, idx, w, sets, rows, es, j + 1, newRows + [row], now, count)
  {
    var before := Changes(w, sets, es[..j]);
    ChangeJoins(w, sets, rows, es, j);
    Seqs.Empty(before);
    ChangeSnoc(env, idx, before, Change(rows[j], row, es[j].cid));
  }

  /** The rows of one page under UPDATE, how many change, and the indexes with the changes. */
  method UpdateInPage(env: Env, idx: Indexes, w: Where, sets: seq<SetClause>, rows: seq<Row>, cid: Cid)
    returns (r: Result<(seq<Row>, Indexes)>, count: nat)
    requires Standing(idx)
    ensures r.Ok? <==> UpdatedRows(w, sets, rows).Ok?
    ensures r.Ok? ==> UpdatedSoFar(env, idx, w, sets, PageEntries(rows, cid), r.value.0, r.value.1, count)
  {
    var newRows, now := [], idx;
    count := 0;
    ghost var es := PageEntries(rows, cid);
    UpdatedInPageStarts(env, idx, w, sets, rows, es);
    for j := 0 to |rows|
      invariant UpdatedInPage(env, idx, w, sets, rows, es, j, newRows, now, count)
    {
      var hit := Selects(w, rows[j]);
      UpdateMapsRows(w, sets, rows);
      if hit.Err? { return Err, 0; }
      if hit.value {
        var row := ApplySets(sets, rows[j]);
        if row.Err? { return Err, 0; }
        UpdatedInPageStep(env, idx, w, sets, rows, es, j, newRows, now, count, row.value);
        count := count + 1;
        now := UpdateIndexesOnDelete(env, now, cid, rows[j]);
        now := UpdateIndexesOnInsert(env, now, cid, row.value);
        newRows := newRows + [row.value];
      } else {
        UpdatedInPageStep(env, idx, w, sets, rows, es, j, newRows, now, count, rows[j]);
        newRows := newRows + [rows[j]];
      }
    }
    assert rows[..|rows|] == rows && es[..|rows|] == es;
    RowsOfPage(rows, cid);
    r := Ok((newRows, now));
  }

  lemma {:induction false} UpdateNone(w: Where, sets: seq<SetClause>, es: seq<Entry>)
    requires UpdatedRows(w, sets, RowsOf(es)).Ok? && Changes(w, sets, es) == []
    ensures UpdatedRows(w, sets, RowsOf(es)).value == RowsOf(es)
  {
    if es != [] {
      RowsOfSnoc(es);
      UpdateNone(w, sets, es[..|es| - 1]);
      assert RowsOf(es) == RowsOf(es[..|es| - 1]) + [es[|es| - 1].row];
    }
  }

  lemma {:induction false} UpdatePrefixFails(
    w: Where, sets: seq<SetClause>, pages: map<Cid, seq<Row>>, cids: seq<Cid>, i: nat)
    requires PagesOk(pages, cids) && i <= |cids| && PagesOk(pages, cids[..i])
    requires UpdatedRows(w, sets, Rows(pages, cids[..i])).Err?
    ensures UpdatedRows(w, sets, Rows(pages, cids)).Err?
    decreases |cids|
  {
    if i == |cids| {
      assert cids[..i] == cids;
    } else {
      var n := |cids| - 1;
      assert cids == cids[..n] + [cids[n]] && cids[..n][..i] == cids[..i];
      RowsSnoc(pages, cids[..n], cids[n]);
      UpdatePrefixFails(w, sets, pages, cids[..n], i);
      UpdatedAppend(w, sets, Rows(pages, cids[..n]), pages[cids[n]]);
    }
  }

  lemma {:induction false} NothingChanged(env: Env, idx: Indexes, cs: seq<Change>)
    requires Standing(idx) && cs == []
    ensures ChangeEntries(env, idx, cs) == idx
  {
  }

  /** UPDATE: maps the rows page by page, in place; untouched pages keep their CID. */
  method UpdateDB(
    sh: PageShell, env: Env, table: Table, w: Where, sets: seq<SetClause>) returns (r: Result<Table>, count: nat)
    requires sh.Valid() && PagesOk(sh.pages, table.pageCids) && Standing(table.indexes)
    modifies sh
    ensures sh.Valid() && Grown(old(sh.pages), sh.pages)
    ensures r.Ok? <==> UpdatedRows(w, sets, Rows(old(sh.pages), table.pageCids)).Ok?
    ensures r.Ok? ==>
      var es := Entries(old(sh.pages), table.pageCids);
      && PagesOk(sh.pages, r.value.pageCids) && r.value.schema == table.schema
      && Rows(sh.pages, r.value.pageCids) == UpdatedRows(w, sets, RowsOf(es)).value
      && r.value.indexes == ChangeEntries(env, table.indexes, Changes(w, sets, es))
      && count == |Changes(w, sets, es)|
      && (count == 0 ==> r.value == table)
    ensures r.Ok? ==>
      Steps(env, table.schema, StateOf(old(sh.pages), table), UpdateStmt(w, sets), StateOf(sh.pages, r.value))
  {
    ghost var before := sh.pages;
    var p;
    p, count := UpdatePages(sh, env, table, w, sets);
    if p.Err? { return Err, 0; }
    UpdatedPagesEnd(env, table, w, sets, before, sh.pages, p.value.0, p.value.1, count);
    r := Ok(UpdatedTable(table, p.value.0, p.value.1, count));
  }

  /** UPDATE on all pages in turn. */
  method UpdatePages(
    sh: PageShell, env: Env, table: Table, w: Where, sets: seq<SetClause>)
    returns (r: Result<(seq<Cid>, Indexes)>, count: nat)
    requires sh.Valid() && PagesOk(sh.pages, table.pageCids) && Standing(table.indexes)
    modifies sh
    ensures sh.Valid() && Grown(old(sh.pages), sh.pages)
    ensures r.Err? ==> UpdatedRows(w, sets, Rows(old(sh.pages), table.pageCids)).Err?
    ensures r.Ok? ==>
      UpdatedPages(env, table, w, sets, old(sh.pages), sh.pages, |table.pageCids|, r.value.0, r.value.1, count)
  {
    count := 0;
    var newCids: seq<Cid>, idx := [], table.indexes;
    ghost var before := sh.pages;
    UpdatedPagesStart(env, table, w, sets, before);
    for i := 0 to |table.pageCids|
      invariant sh.Valid() && UpdatedPages(env, table, w, sets, before, sh.pages, i, newCids, idx, count)
    {
      var p, n := UpdatePage(sh, env, table, w, sets, before, i, newCids, idx, count);
      if p.Err? { return Err, 0; }
      newCids, idx := p.value.0, p.value.1;
      count := count + n;
    }
    r := Ok((newCids, idx));
  }

  lemma {:induction false} UpdatedPagesStart(
    env: Env, table: Table, w: Where, sets: seq<SetClause>, before: map<Cid, seq<Row>>)
    requires PagesOk(before, table.pageCids) && Standing(table.indexes)
    ensures UpdatedPages(env, table, w, sets, before, before, 0, [], table.indexes, 0)
  {
    assert table.pageCids[..0] == [];
  }

  /** UPDATE on page `i`: its rows under new CIDs, the indexes, and how many rows changed. */
  method UpdatePage(
    sh: PageShell, env: Env, table: Table, w: Where, sets: seq<SetClause>, ghost before: map<Cid, seq<Row>>, i: nat,
    newCids: seq<Cid>, idx: Indexes, ghost count: nat) returns (r: Result<(seq<Cid>, Indexes)>, n: nat)
    requires sh.Valid() && UpdatedPages(env, table, w, sets, before, sh.pages, i, newCids, idx, count)
    requires i < |table.pageCids|
    modifies sh
    ensures sh.Valid() && Grown(before, sh.pages)
    ensures r.Err? ==> UpdatedRows(w, sets, Rows(before, table.pageCids)).Err?
    ensures r.Ok? ==> UpdatedPages(env, table, w, sets, before, sh.pages, i + 1, r.value.0, r.value.1, count + n)
  {
    var cid := table.pageCids[i];
    var rows := sh.pages[cid];
    ghost var pages := sh.pages;
    var p;
    p, n := UpdateInPage(env, idx, w, sets, rows, cid);
    if p.Err? {
      UpdateFailsInPage(w, sets, before, table.pageCids, i);
      return Err, 0;
    }
    if n == 0 { UpdateNonePage(env, idx, w, sets, rows, cid, p.value.0, p.value.1); }
    RowsOfPage(rows, cid);
    var saved := SavePage(sh, newCids, cid, rows, p.value.0, n > 0);
    UpdatedPagesStep(env, table, w, sets, before, pages, i, newCids, idx, count, sh.pages, saved, p.value.0, p.value.1,
                     n);
    r := Ok((saved, p.value.1));
  }

  /** What UPDATE has done after the first `i` pages. */
  ghost predicate UpdatedPages(
    env: Env, table: Table, w: Where, sets: seq<SetClause>, before: map<Cid, seq<Row>>, pages: map<Cid, seq<Row>>,
    i: nat, newCids: seq<Cid>, idx: Indexes, count: nat) {
    var cids := table.pageCids;
    && PagesOk(before, cids) && i <= |cids| && PagesOk(before, cids[..i])
    && Grown(before, pages) && PagesOk(pages, newCids)
    && Standing(table.indexes) && Standing(idx) && (count == 0 ==> newCids == cids[..i])
    && UpdatedSoFar(env, table.indexes, w, sets, Entries(before, cids[..i]), Rows(pages, newCids), idx, count)
  }

  lemma {:induction false} UpdatedPagesStep(
    env: Env, table: Table, w: Where, sets: seq<SetClause>, before: map<Cid, seq<Row>>, pages: map<Cid, seq<Row>>,
    i: nat, newCids: seq<Cid>, idx: Indexes, count: nat, pages': map<Cid, seq<Row>>, newCids': seq<Cid>,
    pageRows: seq<Row>, idx': Indexes, n: nat)
    requires UpdatedPages(env, table, w, sets, before, pages, i, newCids, idx, count) && i < |table.pageCids|
    requires Grown(pages, pages') && PagesOk(pages', newCids')
    requires Rows(pages', newCids') == Rows(pages, newCids) + pageRows
    requires Standing(idx') && (n == 0 ==> newCids' == newCids + [table.pageCids[i]])
    requires var cid := table.pageCids[i];
      UpdatedSoFar(env, idx, w, sets, PageEntries(before[cid], cid), pageRows, idx', n)
    ensures UpdatedPages(env, table, w, sets, before, pages', i + 1, newCids', idx', count + n)
  {
    var cids := table.pageCids;
    NextPage(before, cids, i);
    UpdateExtends(env, table.indexes, w, sets, Entries(before, cids[..i]), Rows(pages, newCids), idx, count,
                  PageEntries(before[cids[i]], cids[i]), pageRows, idx', n);
  }

  lemma {:induction false} UpdatedPagesEnd(
    env: Env, table: Table, w: Where, sets: seq<SetClause>, before: map<Cid, seq<Row>>, pages: map<Cid, seq<Row>>,
    newCids: seq<Cid>, idx: Indexes, count: nat)
    requires UpdatedPages(env, table, w, sets, before, pages, |table.pageCids|, newCids, idx, count)
    ensures var es, t := Entries(before, table.pageCids), UpdatedTable(table, newCids, idx, count);
      && UpdatedRows(w, sets, RowsOf(es)).Ok?
      && PagesOk(pages, t.pageCids) && t.schema == table.schema
      && Rows(pages, t.pageCids) == UpdatedRows(w, sets, RowsOf(es)).value
      && t.indexes == ChangeEntries(env, table.indexes, Changes(w, sets, es))
      && count == |Changes(w, sets, es)|
      && Steps(env, table.schema, StateOf(before, table), UpdateStmt(w, sets), StateOf(pages, t))
  {
    var cids := table.pageCids;
    assert cids[..|cids|] == cids;
    if count == 0 { NothingChanged(env, table.indexes, Changes(w, sets, Entries(before, cids))); }
  }

  /** Without a changed row the table is the old one. */
  function UpdatedTable(table: Table, newCids: seq<Cid>, idx: Indexes, count: nat): Table {
    if count == 0 then table else Table(table.schema, newCids, idx)
  }

  /** A page without changes keeps its rows. */
  lemma {:induction false} UpdateNonePage(
    env: Env, idx: Indexes, w: Where, sets: seq<SetClause>, rows: seq<Row>, cid: Cid, newRows: seq<Row>, now: Indexes)
    requires Standing(idx) && UpdatedSoFar(env, idx, w, sets, PageEntries(rows, cid), newRows, now, 0)
    ensures newRows == rows
  {
    RowsOfPage(rows, cid);
    UpdateNone(w, sets, PageEntries(rows, cid));
  }

  lemma {:induction false} UpdateFailsInPage(
    w: Where, sets: seq<SetClause>, pages: map<Cid, seq<Row>>, cids: seq<Cid>, i: nat)
    requires PagesOk(pages, cids) && i < |cids| && UpdatedRows(w, sets, pages[cids[i]]).Err?
    ensures UpdatedRows(w, sets, Rows(pages, cids)).Err?
  {
    NextPage(pages, cids, i);
    var es, page := Entries(pages, cids[..i]), PageEntries(pages[cids[i]], cids[i]);
    RowsOfAppend(es, page);
    RowsOfPage(pages[cids[i]], cids[i]);
    UpdatedAppend(w, sets, RowsOf(es), RowsOf(page));
    UpdatePrefixFails(w, sets, pages, cids, i + 1);
  }

  // -------------------------------------------------------- CREATE INDEX

  /** The index of one column over a list of rows. */
  ghost function BuiltIndex(env: Env, col: string, es: seq<Entry>): (t: Tree)
    ensures Stands(Intended, t)
  {
    if es == [] then
      assert Run(Intended, []) == EMPTY_TREE;
      EMPTY_TREE
    else
      var n := |es| - 1;
      var before := BuiltIndex(env, col, es[..n]);
      if col !in es[n].row then before
      else
        var op := PutOp(IndexKey(env, es[n].row[col]), es[n].cid);
        ApplyStands(Intended, before, op);
        Apply(Intended, before, op)
  }

  /** The page CIDs of the rows with a given key, in row order. */
  function CidsOf(env: Env, col: string, es: seq<Entry>, k: Key): seq<Cid> {
    if es == [] then []
    else
      var n := |es| - 1;
      CidsOf(env, col, es[..n], k) + if col in es[n].row && IndexKey(env, es[n].row[col]) == k then [es[n].cid] else []
  }

  /** A new index answers every key with the pages of the rows that have it, once per row and in order. */
  lemma {:induction false} BuiltIndexAnswers(env: Env, col: string, es: seq<Entry>, k: Key)
    ensures Get(BuiltIndex(env, col, es), k) == Found(CidsOf(env, col, es, k))
  {
    BuiltIndexHolds(env, col, es, k);
    GetOnStanding(Intended, BuiltIndex(env, col, es), k);
  }

  lemma {:induction false} BuiltIndexHolds(env: Env, col: string, es: seq<Entry>, k: Key)
    ensures Vals(BuiltIndex(env, col, es), k) == CidsOf(env, col, es, k)
  {
    if es != [] {
      var n := |es| - 1;
      BuiltIndexHolds(env, col, es[..n], k);
      if col in es[n].row {
        ApplyVals(Intended, BuiltIndex(env, col, es[..n]), PutOp(IndexKey(env, es[n].row[col]), es[n].cid), k);
      }
    }
  }

  /** CREATE INDEX: fails when the column has an index or does not exist, else scans the pages. */
  method CreateIndexDB(sh: PageShell, env: Env, table: Table, col: string) returns (r: Result<Table>)
    requires sh.Valid() && PagesOk(sh.pages, table.pageCids) && Standing(table.indexes)
    ensures r.Err? <==> col in table.indexes || FindColumn(table.schema, col).Err?
    ensures r.Ok? ==>
      r.value == table.(indexes := table.indexes[col := BuiltIndex(env, col, Entries(sh.pages, table.pageCids))])
  {
    if col in table.indexes || FindColumn(table.schema, col).Err? { return Err; }
    var tree := EMPTY_TREE;
    ghost var cids := table.pageCids;
    assert cids[..0] == [];
    for i := 0 to |table.pageCids|
      invariant PagesOk(sh.pages, cids[..i])
      invariant tree == BuiltIndex(env, col, Entries(sh.pages, cids[..i]))
    {
      var cid := table.pageCids[i];
      NextPage(sh.pages, cids, i);
      tree := IndexPage(env, col, tree, sh.pages[cid], cid, Entries(sh.pages, cids[..i]));
    }
    assert cids[..|cids|] == cids;
    r := Ok(table.(indexes := table.indexes[col := tree]));
  }

  lemma {:induction false} BuiltSnoc(env: Env, col: string, es: seq<Entry>, e: Entry)
    ensures BuiltIndex(env, col, es + [e])
         == if col in e.row then Put(Intended, BuiltIndex(env, col, es), IndexKey(env, e.row[col]), e.cid)
            else BuiltIndex(env, col, es)
  {
    assert (es + [e])[..|es|] == es;
  }

  /** The rows of one page put in the index. */
  method IndexPage(
    env: Env, col: string, before: Tree, rows: seq<Row>, cid: Cid, ghost es: seq<Entry>) returns (tree: Tree)
    requires before == BuiltIndex(env, col, es)
    ensures tree == BuiltIndex(env, col, es + PageEntries(rows, cid))
  {
    tree := before;
    ghost var page := PageEntries(rows, cid);
    Seqs.Empty(es);
    assert page[..0] == [];
    for j := 0 to |rows|
      invariant tree == BuiltIndex(env, col, es + page[..j])
    {
      Seqs.Unsnoc(page, j);
      Seqs.Assoc(es, page[..j], [page[j]]);
      BuiltSnoc(env, col, es + page[..j], page[j]);
      if col in rows[j] {
        tree := Put(Intended, tree, IndexKey(env, rows[j][col]), cid);
      }
    }
    assert page[..|rows|] == page;
  }

  // -------------------------------------------------------- CREATE TABLE

  /** No two UNIQUE columns of one name. */
  predicate UniqueNamesDiffer(schema: Schema) {
    forall i, j :: 0 <= i < j < |schema| && schema[i].unique && schema[j].unique ==> schema[i].name != schema[j].name
  }

  lemma {:induction false} FreshStep(schema: Schema, n: nat)
    requires n < |schema|
    ensures FreshIndexes(schema[..n + 1]) ==
      if schema[n].unique then FreshIndexes(schema[..n])[schema[n].name := EMPTY_TREE] else FreshIndexes(schema[..n])
  {
    assert schema[..n + 1][..n] == schema[..n];
  }

  lemma {:induction false} FreshNames(schema: Schema, n: nat, name: string)
    requires n <= |schema|
    ensures name in FreshIndexes(schema[..n]) <==> exists i :: 0 <= i < n && schema[i].unique && schema[i].name == name
  {
    if n > 0 {
      FreshNames(schema, n - 1, name);
      FreshStep(schema, n - 1);
    }
  }

  lemma {:induction false} ColumnIsFound(schema: Schema, i: nat)
    requires i < |schema|
    ensures FindColumn(schema, schema[i].name).Ok?
  {
    if i > 0 { ColumnIsFound(schema[1..], i - 1); }
  }

  /** CREATE TABLE: an empty table, then an index for each UNIQUE column in turn. */
  method MigrateDB(sh: PageShell, env: Env, schema: Schema) returns (r: Result<Table>)
    requires sh.Valid()
    ensures r == if UniqueNamesDiffer(schema) then Ok(Table(schema, [], FreshIndexes(schema))) else Err
  {
    var table := Table(schema, [], map[]);
    for i := 0 to |schema|
      invariant table == Table(schema, [], FreshIndexes(schema[..i]))
      invariant forall j, k :: 0 <= j < k < i && schema[j].unique && schema[k].unique ==>
        schema[j].name != schema[k].name
    {
      FreshStep(schema, i);
      if schema[i].unique {
        FreshNames(schema, i, schema[i].name);
        ColumnIsFound(schema, i);
        assert Run(Intended, []) == EMPTY_TREE;
        var next := CreateIndexDB(sh, env, table, schema[i].name);
        if next.Err? { return Err; }
        table := next.value;
      }
    }
    assert schema[..|schema|] == schema;
    r := Ok(table);
  }
}
