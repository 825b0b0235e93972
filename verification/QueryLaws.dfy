/**
 What the parts of a query mean (pkg/core/query.go), stated without the functions that compute them: which rows WHERE
 keeps, which columns a result row has, the tests, arithmetic, natural joins and LIMIT.
 */
module QueryLaws {
  import opened Cells
  import opened Joins
  import opened FromClause
  import opened Identifiers
  import opened Options
  import opened Evaluator
  import S = Subqueries
  import Seqs

  // ------------------------------------------------------------------ WHERE

  predicate Increasing(at: seq<nat>) { forall i, j :: 0 <= i < j < |at| ==> at[i] < at[j] }

  /** The condition holds of row `k` beside the outer row. */
  ghost predicate Wanted(
    env: Env, e: Expr, rows: seq<CombinedRow>, outer: CombinedRow, schemas: Schemas, names: multiset<string>, k: nat) {
    k < |rows| && Holds(env, e, Merge(rows[k], outer), schemas, names) == Done(true)
  }

  /** `at` lists, in order, the rows the condition holds of. */
  ghost predicate Kept(
    env: Env, e: Expr, rows: seq<CombinedRow>, outer: CombinedRow, schemas: Schemas, names: multiset<string>,
    at: seq<nat>) {
    Increasing(at) && forall k: nat :: k in at <==> Wanted(env, e, rows, outer, schemas, names, k)
  }

  /** The rows at these places, each beside the outer row. */
  predicate RowsAt(kept: seq<CombinedRow>, rows: seq<CombinedRow>, outer: CombinedRow, at: seq<nat>) {
    && |kept| == |at|
    && (forall i :: 0 <= i < |at| ==> at[i] < |rows|)
    && forall i :: 0 <= i < |at| ==> kept[i] == Merge(rows[at[i]], outer)
  }

  lemma {:induction false} WantedStep(
    env: Env, e: Expr, rows: seq<CombinedRow>, outer: CombinedRow, schemas: Schemas, names: multiset<string>, k: nat)
    requires rows != []
    ensures var n: nat := |rows| - 1;
      Wanted(env, e, rows, outer, schemas, names, k) <==>
      if k == n then Holds(env, e, Merge(rows[n], outer), schemas, names) == Done(true)
      else Wanted(env, e, rows[..n], outer, schemas, names, k)
  {
  }

  lemma {:induction false} OneMore(at: seq<nat>, n: nat)
    requires Increasing(at) && forall k: nat :: k in at ==> k < n
    ensures Increasing(at + [n]) && forall k: nat :: k in at + [n] <==> k in at || k == n
  {
    assert forall i :: 0 <= i < |at| ==> at[i] in at;
  }

  lemma {:induction false} KeptStep(
    env: Env, e: Expr, rows: seq<CombinedRow>, outer: CombinedRow, schemas: Schemas, names: multiset<string>,
    at: seq<nat>) returns (at': seq<nat>)
    requires rows != [] && Kept(env, e, rows[..|rows| - 1], outer, schemas, names, at)
    ensures Kept(env, e, rows, outer, schemas, names, at')
    ensures var n := |rows| - 1;
      at' == if Holds(env, e, Merge(rows[n], outer), schemas, names) == Done(true) then at + [n] else at
  {
    var n: nat := |rows| - 1;
    OneMore(at, n);
    at' := if Holds(env, e, Merge(rows[n], outer), schemas, names) == Done(true) then at + [n] else at;
    forall k: nat ensures k in at' <==> Wanted(env, e, rows, outer, schemas, names, k) {
      WantedStep(env, e, rows, outer, schemas, names, k);
    }
  }

  ghost predicate Tested(
    env: Env, e: Expr, rows: seq<CombinedRow>, outer: CombinedRow, schemas: Schemas, names: multiset<string>, k: nat) {
    k < |rows| ==> Holds(env, e, Merge(rows[k], outer), schemas, names).Done?
  }

  /** The condition fails on no row. */
  ghost predicate AllTested(
    env: Env, e: Expr, rows: seq<CombinedRow>, outer: CombinedRow, schemas: Schemas, names: multiset<string>) {
    forall k: nat :: Tested(env, e, rows, outer, schemas, names, k)
  }

  lemma {:induction false} OneTested(
    env: Env, e: Expr, rows: seq<CombinedRow>, outer: CombinedRow, schemas: Schemas, names: multiset<string>, k: nat)
    requires rows != []
    ensures var n: nat := |rows| - 1;
      Tested(env, e, rows, outer, schemas, names, k) <==>
      if k == n then Holds(env, e, Merge(rows[n], outer), schemas, names).Done?
      else Tested(env, e, rows[..n], outer, schemas, names, k)
  {
  }

  lemma {:induction false} TestedStep(
    env: Env, e: Expr, rows: seq<CombinedRow>, outer: CombinedRow, schemas: Schemas, names: multiset<string>)
    requires rows != []
    ensures var n := |rows| - 1;
      AllTested(env, e, rows, outer, schemas, names) <==>
      AllTested(env, e, rows[..n], outer, schemas, names) && Holds(env, e, Merge(rows[n], outer), schemas, names).Done?
  {
    var n: nat := |rows| - 1;
    assert Tested(env, e, rows[..n], outer, schemas, names, n);
    forall k: nat
      ensures Tested(env, e, rows, outer, schemas, names, k) <==>
        if k == n then Holds(env, e, Merge(rows[n], outer), schemas, names).Done?
        else Tested(env, e, rows[..n], outer, schemas, names, k)
    {
      OneTested(env, e, rows, outer, schemas, names, k);
    }
  }

  /** What WHERE gives is the rows at these places, or a failure if some test fails. */
  ghost predicate Gives(
    kept: Outcome<seq<CombinedRow>>, tested: bool, rows: seq<CombinedRow>, outer: CombinedRow, at: seq<nat>) {
    && (kept.Done? <==> tested)
    && (kept.Done? ==> RowsAt(kept.value, rows, outer, at))
  }

  lemma {:induction false} GivesStep(
    kept: Outcome<seq<CombinedRow>>, tested: bool, rows: seq<CombinedRow>, outer: CombinedRow, at: seq<nat>,
    wanted: Outcome<bool>)
    requires rows != [] && Gives(kept, tested, rows[..|rows| - 1], outer, at)
    ensures var n := |rows| - 1;
      Gives(Extend(kept, wanted, Merge(rows[n], outer)), tested && wanted.Done?, rows, outer,
            if wanted == Done(true) then at + [n] else at)
  {
    var n := |rows| - 1;
    var init := rows[..n];
    forall k | 0 <= k < n ensures rows[k] == init[k] {}
  }

  /** WHERE fails exactly when its condition fails on some row, and otherwise keeps exactly the rows it holds of. */
  lemma {:induction false} WhereKeeps(
    env: Env, e: Expr, rows: seq<CombinedRow>, outer: CombinedRow, schemas: Schemas, names: multiset<string>)
    returns (at: seq<nat>)
    ensures Kept(env, e, rows, outer, schemas, names, at)
    ensures Gives(Filtered(env, Some(e), rows, outer, schemas, names), AllTested(env, e, rows, outer, schemas, names),
                  rows, outer, at)
    decreases |rows|
  {
    if rows == [] { return []; }
    var n := |rows| - 1;
    var init := rows[..n];
    var before := WhereKeeps(env, e, init, outer, schemas, names);
    at := KeptStep(env, e, rows, outer, schemas, names, before);
    TestedStep(env, e, rows, outer, schemas, names);
    GivesStep(Filtered(env, Some(e), init, outer, schemas, names), AllTested(env, e, init, outer, schemas, names),
              rows, outer, before, Holds(env, e, Merge(rows[n], outer), schemas, names));
  }

  // ----------------------------------------------------------- result rows

  /** Item `i` is the last one that gives the name. */
  predicate LastNamed(items: seq<SelectItem>, name: string, i: nat) {
    && i < |items| && items[i].Named? && items[i].name == name
    && forall j :: i < j < |items| ==> items[j].Named? && items[j].name != name
  }

  predicate IsNamed(items: seq<SelectItem>, name: string) {
    exists i :: 0 <= i < |items| && items[i].Named? && items[i].name == name
  }

  ghost predicate AllHaveValues(
    env: Env, items: seq<SelectItem>, row: CombinedRow, schemas: Schemas, names: multiset<string>) {
    forall i :: 0 <= i < |items| ==> items[i].Named? && Value(env, items[i].e, row, schemas, names).Done?
  }

  /** The result row has exactly the names of the items, each with the value of the last item of that name. */
  ghost predicate Shows(
    env: Env, items: seq<SelectItem>, row: CombinedRow, schemas: Schemas, names: multiset<string>, result: ResultRow) {
    && (forall name :: name in result <==> IsNamed(items, name))
    && forall name, i: nat :: LastNamed(items, name, i) ==>
         name in result && Value(env, items[i].e, row, schemas, names) == Done(result[name])
  }

  lemma {:induction false} ShowsStep(
    env: Env, items: seq<SelectItem>, row: CombinedRow, schemas: Schemas, names: multiset<string>, before: ResultRow,
    cell: Cell)
    requires items != [] && items[|items| - 1].Named?
    requires Shows(env, items[..|items| - 1], row, schemas, names, before)
    requires Value(env, items[|items| - 1].e, row, schemas, names) == Done(cell)
    ensures Shows(env, items, row, schemas, names, before + map[items[|items| - 1].name := cell])
  {
    var n := |items| - 1;
    var init, item, result := items[..n], items[n], before + map[items[n].name := cell];
    forall name ensures name in result <==> IsNamed(items, name) {
      if IsNamed(init, name) {
        var i :| 0 <= i < n && init[i].Named? && init[i].name == name;
        assert items[i].name == name;
      }
      if i :| 0 <= i < |items| && items[i].Named? && items[i].name == name { assert i == n || init[i] == items[i]; }
      if name == item.name { assert items[n].name == name; }
    }
    forall name, i: nat | LastNamed(items, name, i)
      ensures name in result && Value(env, items[i].e, row, schemas, names) == Done(result[name])
    {
      if i < n {
        assert items[n].name != name && init[i] == items[i];
        assert LastNamed(init, name, i);
      }
    }
  }

  lemma {:induction false} ProjectStep(
    env: Env, items: seq<SelectItem>, row: CombinedRow, schemas: Schemas, names: multiset<string>)
    requires items != [] && items[|items| - 1].Named?
    ensures var n := |items| - 1;
      ProjectRow(env, items, row, schemas, names) ==
      Beside(ProjectRow(env, items[..n], row, schemas, names),
             Labelled(items[n].name, Value(env, items[n].e, row, schemas, names)))
    ensures var n := |items| - 1;
      AllHaveValues(env, items, row, schemas, names) <==>
      AllHaveValues(env, items[..n], row, schemas, names) && Value(env, items[n].e, row, schemas, names).Done?
  {
    var n := |items| - 1;
    var init := items[..n];
    forall i | 0 <= i < n ensures items[i] == init[i] {}
  }

  /** Without stars a row can be projected exactly when every item has a value. */
  lemma {:induction false} ResultRowIs(
    env: Env, items: seq<SelectItem>, row: CombinedRow, schemas: Schemas, names: multiset<string>)
    requires forall i :: 0 <= i < |items| ==> items[i].Named?
    ensures ProjectRow(env, items, row, schemas, names).Done? <==> AllHaveValues(env, items, row, schemas, names)
    ensures var r := ProjectRow(env, items, row, schemas, names);
      r.Done? ==> Shows(env, items, row, schemas, names, r.value)
    decreases |items|
  {
    if items != [] {
      var n := |items| - 1;
      ResultRowIs(env, items[..n], row, schemas, names);
      ProjectStep(env, items, row, schemas, names);
      var before, last := ProjectRow(env, items[..n], row, schemas, names),
                          Value(env, items[n].e, row, schemas, names);
      if before.Done? && last.Done? { ShowsStep(env, items, row, schemas, names, before.value, last.value); }
    }
  }

  /** The result rows show the items of the rows at these places. */
  ghost predicate ShowsAll(
    env: Env, items: seq<SelectItem>, rows: seq<CombinedRow>, schemas: Schemas, names: multiset<string>,
    results: seq<ResultRow>, at: seq<nat>) {
    && |results| == |at|
    && forall i :: 0 <= i < |at| ==> at[i] < |rows| && Shows(env, items, rows[at[i]], schemas, names, results[i])
  }

  ghost predicate AllShown(
    env: Env, items: seq<SelectItem>, rows: seq<CombinedRow>, schemas: Schemas, names: multiset<string>,
    at: seq<nat>) {
    forall k: nat :: k in at && k < |rows| ==> AllHaveValues(env, items, rows[k], schemas, names)
  }

  lemma {:induction false} ProjectionMeans(
    env: Env, items: seq<SelectItem>, kept: seq<CombinedRow>, rows: seq<CombinedRow>, schemas: Schemas,
    names: multiset<string>, at: seq<nat>)
    requires forall i :: 0 <= i < |items| ==> items[i].Named?
    requires RowsAt(kept, rows, map[], at)
    ensures var r := Project(env, items, kept, schemas, names);
      && (r.Done? <==> AllShown(env, items, rows, schemas, names, at))
      && (r.Done? ==> ShowsAll(env, items, rows, schemas, names, r.value, at))
  {
    S.ProjectSucceeds(env, items, kept, schemas, names);
    forall i | 0 <= i < |kept|
      ensures kept[i] == rows[at[i]] && at[i] in at
      ensures var r := ProjectRow(env, items, kept[i], schemas, names);
        && (r.Done? <==> AllHaveValues(env, items, rows[at[i]], schemas, names))
        && (r.Done? ==> Shows(env, items, rows[at[i]], schemas, names, r.value))
    {
      assert kept[i] == Merge(rows[at[i]], map[]) == rows[at[i]];
      ResultRowIs(env, items, kept[i], schemas, names);
    }
  }

  /** A query that only selects, over whatever FROM gives: the results show the rows WHERE keeps, in their order. */
  lemma {:induction false} SelectMeans(env: Env, s: Select, schemas: Schemas, rows: seq<CombinedRow>)
    returns (at: seq<nat>)
    requires AllSchemas(env, s.from) == Done(schemas) && FromRowsOf(env, s.from, schemas) == Done(rows)
    requires s.filter.Some? && !IsAggregate(s) && s.order == [] && s.limit.NoLimit?
    requires forall i :: 0 <= i < |s.items| ==> s.items[i].Named?
    ensures Kept(env, s.filter.value, rows, map[], schemas, multiset(Names(s.from)), at)
    ensures var e, names, r := s.filter.value, multiset(Names(s.from)), Query(env, s);
      && (r.Done? <==>
            AllTested(env, e, rows, map[], schemas, names) && AllShown(env, s.items, rows, schemas, names, at))
      && (r.Done? ==> ShowsAll(env, s.items, rows, schemas, names, r.value, at))
  {
    var names := multiset(Names(s.from));
    at := WhereKeeps(env, s.filter.value, rows, map[], schemas, names);
    var kept := Filtered(env, s.filter, rows, map[], schemas, names);
    assert s.filter == Some(s.filter.value);
    if kept.Done? { ProjectionMeans(env, s.items, kept.value, rows, schemas, names, at); }
    assert Query(env, s) == Selected(env, s.items, s.order, s.limit, kept, schemas, names);
  }

  /** A qualified column of a table in scope is what its row holds there, and NULL if it holds nothing. */
  lemma {:induction false} ColumnIs(
    env: Env, q: string, c: string, row: CombinedRow, schemas: Schemas, names: multiset<string>)
    requires q != "" && q in row && q in schemas && ("result" in row ==> q == "result")
    ensures Value(env, Column(q, c), row, schemas, names) == Done(if c in row[q] then row[q][c] else Null)
  {
  }

  /** A table with an alias is known by both names; its rows carry the alias. */
  lemma {:induction false} AliasColumn(
    env: Env, t: string, a: string, columns: seq<string>, c: string, row: CombinedRow, names: multiset<string>)
    requires a !in {"", t} && t != "" && a in row && t !in row && "result" !in row
    ensures var schemas, cell := StoredSchemas(t, a, columns), if c in row[a] then row[a][c] else Null;
      && Has(env, Column(a, c), row, schemas, names, cell)
      && Has(env, Column(t, c), row, schemas, names, if c in columns then cell else Null)
  {
  }

  /** A table that is not in scope is an error, which a comparison takes for a NULL. */
  lemma {:induction false} UnknownTable(
    env: Env, q: string, c: string, row: CombinedRow, schemas: Schemas, names: multiset<string>, op: Operator, r: Expr)
    requires q != "" && q !in schemas && "result" !in row
    ensures Value(env, Column(q, c), row, schemas, names) == NotFound
    ensures Holds(env, Compare(op, Column(q, c), r), row, schemas, names)
         == Holds(env, Compare(op, Literal(Null), r), row, schemas, names)
  {
  }

  /** All rows of FROM, in their order: what a query without WHERE selects. */
  lemma {:induction false} SelectAllMeans(env: Env, s: Select, schemas: Schemas, rows: seq<CombinedRow>)
    requires AllSchemas(env, s.from) == Done(schemas) && FromRowsOf(env, s.from, schemas) == Done(rows)
    requires s.filter.None? && !IsAggregate(s) && s.order == [] && s.limit.NoLimit?
    requires forall i :: 0 <= i < |s.items| ==> s.items[i].Named?
    ensures var names, r, all := multiset(Names(s.from)), Query(env, s), seq(|rows|, k => k);
      && (r.Done? <==> AllShown(env, s.items, rows, schemas, names, all))
      && (r.Done? ==> ShowsAll(env, s.items, rows, schemas, names, r.value, all))
  {
    var names, all := multiset(Names(s.from)), seq(|rows|, k => k);
    forall k | 0 <= k < |rows| ensures rows[k] == Merge(rows[k], map[]) {}
    ProjectionMeans(env, s.items, rows, rows, schemas, names, all);
  }

  /** ORDER BY comes before LIMIT, and the projection after both. */
  lemma {:induction false} PageMeans(
    env: Env, s: Select, schemas: Schemas, rows: seq<CombinedRow>, kept: seq<CombinedRow>, results: seq<ResultRow>)
    requires AllSchemas(env, s.from) == Done(schemas) && FromRowsOf(env, s.from, schemas) == Done(rows)
    requires Filtered(env, s.filter, rows, map[], schemas, multiset(Names(s.from))) == Done(kept)
    requires !IsAggregate(s) && s.order != [] && s.limit.Limit? && Query(env, s) == Done(results)
    requires forall i :: 0 <= i < |s.items| ==> s.items[i].Named?
    ensures var names := multiset(Names(s.from));
      var sorted := env.sortRows(s.order, kept, schemas, names);
      && |results| <= s.limit.count
      && (|results| == s.limit.count || |results| + s.limit.offset >= |sorted|)
      && forall i :: 0 <= i < |results| ==>
           s.limit.offset + i < |sorted| &&
           Shows(env, s.items, sorted[s.limit.offset + i], schemas, names, results[i])
  {
    var names := multiset(Names(s.from));
    var sorted := env.sortRows(s.order, kept, schemas, names);
    var page := Slice(s.limit, sorted);
    LimitTakes(s.limit.offset, s.limit.count, sorted);
    S.ProjectSucceeds(env, s.items, page, schemas, names);
    forall i | 0 <= i < |results| ensures Shows(env, s.items, page[i], schemas, names, results[i]) {
      ResultRowIs(env, s.items, page[i], schemas, names);
    }
  }

  // ---------------------------------------------------------- derived tables

  /** SELECT a.c FROM (q) AS a */
  function FromDerived(q: Select, a: string, c: string): Select {
    Select([Named(Column(a, c), c)], [Derived(q, a)], None, [], [], NoLimit)
  }

  lemma {:induction false} DerivedFrom(env: Env, q: Select, a: string, results: seq<ResultRow>)
    requires Query(env, q) == Done(results) && a != "" && forall k :: 0 <= k < |results| ==> Storable(results[k])
    ensures var schemas := map[a := Schema("", a, DerivedColumns(results))];
      && AllSchemas(env, [Derived(q, a)]) == Done(schemas)
      && FromRowsOf(env, [Derived(q, a)], schemas) == Done(Tagged(a, results))
  {
    var s, schemas := Derived(q, a), map[a := Schema("", a, DerivedColumns(results))];
    var none := [s][..0];
    assert none == [] && map[] + schemas == schemas;
    assert SourceSchemas(env, s) == Done(schemas);
    assert FoldedRows(env, none, schemas) == Done([]);
    assert SourceRows(env, s, schemas) == Done(Tagged(a, results));
  }

  /** A derived table whose values can be stored has the rows of its query, in their order. */
  lemma {:induction false} DerivedMeans(env: Env, q: Select, a: string, c: string, results: seq<ResultRow>)
    requires Query(env, q) == Done(results) && a !in {"", "result"}
    requires forall k, x :: 0 <= k < |results| && x in results[k] ==> results[k][x] != Null && !results[k][x].Count?
    ensures var r := Query(env, FromDerived(q, a, c));
      && r.Done? && |r.value| == |results|
      && forall k :: 0 <= k < |results| ==> r.value[k] == map[c := if c in results[k] then results[k][c] else Null]
  {
    var s, schemas := FromDerived(q, a, c), map[a := Schema("", a, DerivedColumns(results))];
    var rows, names := Tagged(a, results), multiset(Names(s.from));
    DerivedFrom(env, q, a, results);
    SelectAllMeans(env, s, schemas, rows);
    forall k, row: ResultRow | 0 <= k < |results|
      ensures AllHaveValues(env, s.items, rows[k], schemas, names)
      ensures Shows(env, s.items, rows[k], schemas, names, row) ==>
        row == map[c := if c in results[k] then results[k][c] else Null]
    {
      DerivedShows(env, a, c, results[k], schemas, names, row);
    }
  }

  lemma {:induction false} DerivedShows(
    env: Env, a: string, c: string, result: ResultRow, schemas: Schemas, names: multiset<string>, row: ResultRow)
    requires a !in {"", "result"} && a in schemas
    ensures AllHaveValues(env, [Named(Column(a, c), c)], map[a := result], schemas, names)
    ensures Shows(env, [Named(Column(a, c), c)], map[a := result], schemas, names, row) ==>
      row == map[c := if c in result then result[c] else Null]
  {
    var items := [Named(Column(a, c), c)];
    ColumnIs(env, a, c, map[a := result], schemas, names);
    assert LastNamed(items, c, 0);
    assert forall name :: IsNamed(items, name) <==> name == c;
  }

  /** With a NULL or a COUNT among them the query around it fails. */
  lemma {:induction false} DerivedFails(
    env: Env, q: Select, a: string, c: string, results: seq<ResultRow>, k: nat, x: string)
    requires Query(env, q) == Done(results) && k < |results| && x in results[k]
    requires results[k][x] == Null || results[k][x].Count?
    ensures !Query(env, FromDerived(q, a, c)).Done?
  {
    var s, from := Derived(q, a), [Derived(q, a)];
    assert !Storable(results[k]);
    forall schemas ensures !FromRowsOf(env, from, schemas).Done? {
      assert from[0] == s && !SourceRows(env, s, schemas).Done?;
      assert FromRowsOf(env, from, schemas) == FoldedRows(env, from, schemas);
    }
    assert FromDerived(q, a, c).from == from;
  }

  // ------------------------------------------------------------------ tests

  /** The condition was evaluated and gave this answer. */
  ghost predicate Is(
    env: Env, e: Expr, row: CombinedRow, schemas: Schemas, names: multiset<string>, answer: bool) {
    Holds(env, e, row, schemas, names) == Done(answer)
  }

  ghost predicate Has(
    env: Env, e: Expr, row: CombinedRow, schemas: Schemas, names: multiset<string>, cell: Cell) {
    Value(env, e, row, schemas, names) == Done(cell)
  }

  /**
   AND and OR: the second operand is looked at only when the first does not decide, so a failure there does no harm
   then.
   */
  lemma {:induction false} Connectives(
    env: Env, a: Expr, b: Expr, row: CombinedRow, schemas: Schemas, names: multiset<string>)
    ensures Is(env, And(a, b), row, schemas, names, true)
       <==> Is(env, a, row, schemas, names, true) && Is(env, b, row, schemas, names, true)
    ensures Is(env, And(a, b), row, schemas, names, false)
       <==> (Is(env, a, row, schemas, names, false)
             || (Is(env, a, row, schemas, names, true) && Is(env, b, row, schemas, names, false)))
    ensures Is(env, Or(a, b), row, schemas, names, false)
       <==> Is(env, a, row, schemas, names, false) && Is(env, b, row, schemas, names, false)
    ensures Is(env, Or(a, b), row, schemas, names, true)
       <==> (Is(env, a, row, schemas, names, true)
             || (Is(env, a, row, schemas, names, false) && Is(env, b, row, schemas, names, true)))
  {
  }

  /** IS NULL holds of a value exactly when it is NULL, and IS NOT NULL exactly when it is not. */
  lemma {:induction false} NullTests(
    env: Env, x: Expr, cell: Cell, row: CombinedRow, schemas: Schemas, names: multiset<string>)
    requires Has(env, x, row, schemas, names, cell)
    ensures Is(env, IsNull(x, false), row, schemas, names, cell == Null)
    ensures Is(env, IsNull(x, true), row, schemas, names, cell != Null)
  {
  }

  /** Two NULLs are equal, NULL differs from every value, and no other comparison holds of a NULL. */
  lemma {:induction false} NullComparisons(
    env: Env, l: Expr, r: Expr, a: Cell, b: Cell, row: CombinedRow, schemas: Schemas, names: multiset<string>)
    requires Has(env, l, row, schemas, names, a) && Has(env, r, row, schemas, names, b) && (a == Null || b == Null)
    ensures Is(env, Compare(Equal, l, r), row, schemas, names, a == Null && b == Null)
    ensures Is(env, Compare(NotEqual, l, r), row, schemas, names, a != Null || b != Null)
    ensures forall op: Operator :: op != Equal && op != NotEqual ==>
      Is(env, Compare(op, l, r), row, schemas, names, false)
  {
  }

  /** Of two values the comparison is the call, operands in the order written. */
  lemma {:induction false} Comparisons(
    env: Env, op: Operator, l: Expr, r: Expr, a: Cell, b: Cell, row: CombinedRow, schemas: Schemas,
    names: multiset<string>)
    requires Has(env, l, row, schemas, names, a) && Has(env, r, row, schemas, names, b) && a != Null && b != Null
    ensures Holds(env, Compare(op, l, r), row, schemas, names) == env.compare(op, a, b)
  {
  }

  /** `v` lists the values of the items. */
  ghost predicate Values(
    env: Env, items: seq<Expr>, v: seq<Cell>, row: CombinedRow, schemas: Schemas, names: multiset<string>) {
    |v| == |items| && forall i :: 0 <= i < |items| ==> Has(env, items[i], row, schemas, names, v[i])
  }

  lemma {:induction false} SomeItemIs(
    env: Env, x: Cell, items: seq<Expr>, v: seq<Cell>, row: CombinedRow, schemas: Schemas, names: multiset<string>)
    requires Values(env, items, v, row, schemas, names)
    ensures AnyItemIs(env, x, items, row, schemas, names) == Done(exists i :: 0 <= i < |v| && env.same(x, v[i]))
    decreases |items|
  {
    if items != [] {
      SomeItemIs(env, x, items[1..], v[1..], row, schemas, names);
      if i :| 0 <= i < |v[1..]| && env.same(x, v[1..][i]) { assert env.same(x, v[i + 1]); }
      if i :| 1 <= i < |v| && env.same(x, v[i]) { assert v[1..][i - 1] == v[i]; }
    }
  }

  /** IN a list: some item is the same; NOT IN: none is; and NULL is neither in a list nor not in it. */
  lemma {:induction false} ListMembership(
    env: Env, x: Expr, cell: Cell, items: seq<Expr>, v: seq<Cell>, row: CombinedRow, schemas: Schemas,
    names: multiset<string>)
    requires Has(env, x, row, schemas, names, cell) && Values(env, items, v, row, schemas, names)
    ensures var found := exists i :: 0 <= i < |v| && env.same(cell, v[i]);
      && Is(env, InList(x, items, false), row, schemas, names, cell != Null && found)
      && Is(env, InList(x, items, true), row, schemas, names, cell != Null && !found)
  {
    SomeItemIs(env, cell, items, v, row, schemas, names);
  }

  /** `v` lists the values of result rows of one column each. */
  predicate SingleColumn(results: seq<ResultRow>, v: seq<Cell>) {
    && |results| == |v|
    && forall i :: 0 <= i < |v| ==> |results[i]| == 1 && results[i].Values == {v[i]}
  }

  lemma {:induction false} TheOnly(row: ResultRow, cell: Cell)
    requires |row| == 1 && row.Values == {cell}
    ensures Only(row) == cell
  {
    assert Only(row) in row.Values;
  }

  lemma {:induction false} SomeRowIs(env: Env, x: Cell, results: seq<ResultRow>, v: seq<Cell>)
    requires SingleColumn(results, v)
    ensures AnyRowIs(env, x, results) == Done(exists i :: 0 <= i < |v| && env.same(x, v[i]))
    decreases |results|
  {
    if results != [] {
      TheOnly(results[0], v[0]);
      SomeRowIs(env, x, results[1..], v[1..]);
      if i :| 0 <= i < |v[1..]| && env.same(x, v[1..][i]) { assert env.same(x, v[i + 1]); }
      if i :| 1 <= i < |v| && env.same(x, v[i]) { assert v[1..][i - 1] == v[i]; }
    }
  }

  /** IN a subquery of one column. */
  lemma {:induction false} SubqueryMembership(
    env: Env, x: Expr, cell: Cell, s: Select, results: seq<ResultRow>, v: seq<Cell>, row: CombinedRow,
    schemas: Schemas, names: multiset<string>)
    requires Has(env, x, row, schemas, names, cell)
    requires Subquery(env, s, row, schemas) == Done(results) && SingleColumn(results, v)
    ensures var found := exists i :: 0 <= i < |v| && env.same(cell, v[i]);
      && Is(env, InSelect(x, s, false), row, schemas, names, cell != Null && found)
      && Is(env, InSelect(x, s, true), row, schemas, names, cell != Null && !found)
  {
    SomeRowIs(env, cell, results, v);
    MembershipIs(env, x, cell, s, results, false, row, schemas, names);
    MembershipIs(env, x, cell, s, results, true, row, schemas, names);
  }

  lemma {:induction false} MembershipIs(
    env: Env, x: Expr, cell: Cell, s: Select, results: seq<ResultRow>, negated: bool, row: CombinedRow,
    schemas: Schemas, names: multiset<string>)
    requires Has(env, x, row, schemas, names, cell) && Subquery(env, s, row, schemas) == Done(results)
    ensures Holds(env, InSelect(x, s, negated), row, schemas, names)
         == MemberOfResult(env, Done(cell), Done(results), negated)
  {
  }

  /** A subquery as a value: NULL of no row, the one value of one row, and a failure of several. */
  lemma {:induction false} SubqueryValue(
    env: Env, s: Select, results: seq<ResultRow>, v: seq<Cell>, row: CombinedRow, schemas: Schemas,
    names: multiset<string>)
    requires Subquery(env, s, row, schemas) == Done(results) && SingleColumn(results, v)
    ensures |v| == 0 ==> Has(env, Scalar(s), row, schemas, names, Null)
    ensures |v| == 1 ==> Has(env, Scalar(s), row, schemas, names, v[0])
    ensures |v| > 1 ==> Value(env, Scalar(s), row, schemas, names) == Failed
  {
    assert Value(env, Scalar(s), row, schemas, names) == ScalarOf(results);
    if |v| == 1 { TheOnly(results[0], v[0]); }
  }

  /** LIKE and NOT LIKE are opposite, but neither holds of a NULL. */
  lemma {:induction false} LikeTests(
    env: Env, x: Expr, p: Expr, a: Cell, b: Cell, row: CombinedRow, schemas: Schemas, names: multiset<string>)
    requires Has(env, x, row, schemas, names, a) && Has(env, p, row, schemas, names, b)
    ensures a == Null || b == Null ==> Is(env, IsLike(x, p, false), row, schemas, names, false)
    ensures a == Null || b == Null ==> Is(env, IsLike(x, p, true), row, schemas, names, false)
    ensures a != Null && b != Null ==> forall negated, found: bool ::
      Is(env, IsLike(x, p, negated), row, schemas, names, found) <==> env.like(a, b) == Done(found != negated)
  {
  }

  // ------------------------------------------------------------- arithmetic

  /** The number a value stands for: an integer or a decimal is itself, and text is what it reads as. */
  predicate StandsFor(parse: Parse, c: Cell, r: real) {
    || c == Real(r)
    || (c.Int? && c.n as real == r)
    || (c.Count? && c.size as real == r)
    || (c.Text? && parse(c.s) == Num(r))
  }

  lemma {:induction false} NumbersAre(parse: Parse, c: Cell, r: real)
    ensures NumericValue(parse, c) == Num(r) <==> StandsFor(parse, c, r)
  {
  }

  lemma {:induction false} AppliedIs(env: Env, a: Cell, b: Cell, x: real, y: real)
    requires StandsFor(env.parse, a, x) && StandsFor(env.parse, b, y)
    ensures Apply(env, Plus, a, b) == Done(Real(x + y)) && Apply(env, Minus, a, b) == Done(Real(x - y))
    ensures Apply(env, Times, a, b) == Done(Real(x * y))
    ensures Apply(env, Divide, a, b) == if y == 0.0 then Failed else Done(Real(x / y))
    ensures Negated(env, Done(a)) == Done(Real(0.0 - x))
  {
    NumbersAre(env.parse, a, x);
    NumbersAre(env.parse, b, y);
    assert Multiplied(x, y) == x * y;
  }

  /** Arithmetic is that of the numbers, in decimals, and division by zero fails. */
  lemma {:induction false} ArithmeticIs(
    env: Env, l: Expr, r: Expr, a: Cell, b: Cell, x: real, y: real, row: CombinedRow, schemas: Schemas,
    names: multiset<string>)
    requires Has(env, l, row, schemas, names, a) && Has(env, r, row, schemas, names, b)
    requires StandsFor(env.parse, a, x) && StandsFor(env.parse, b, y)
    ensures Has(env, Binary(Plus, l, r), row, schemas, names, Real(x + y))
    ensures Has(env, Binary(Minus, l, r), row, schemas, names, Real(x - y))
    ensures Has(env, Binary(Times, l, r), row, schemas, names, Real(x * y))
    ensures if y == 0.0 then Value(env, Binary(Divide, l, r), row, schemas, names) == Failed
            else Has(env, Binary(Divide, l, r), row, schemas, names, Real(x / y))
    ensures Has(env, Negate(l), row, schemas, names, Real(0.0 - x))
  {
    AppliedIs(env, a, b, x, y);
    BinaryIs(env, Plus, l, r, a, b, row, schemas, names);
    BinaryIs(env, Minus, l, r, a, b, row, schemas, names);
    BinaryIs(env, Times, l, r, a, b, row, schemas, names);
    BinaryIs(env, Divide, l, r, a, b, row, schemas, names);
  }

  lemma {:induction false} BinaryIs(
    env: Env, op: Arithmetic, l: Expr, r: Expr, a: Cell, b: Cell, row: CombinedRow, schemas: Schemas,
    names: multiset<string>)
    requires Has(env, l, row, schemas, names, a) && Has(env, r, row, schemas, names, b)
    ensures Value(env, Binary(op, l, r), row, schemas, names) == Apply(env, op, a, b)
  {
  }

  ghost predicate IsNumber(parse: Parse, c: Cell) { exists r: real :: StandsFor(parse, c, r) }

  lemma {:induction false} NoNumber(parse: Parse, c: Cell)
    requires !IsNumber(parse, c)
    ensures NumericValue(parse, c) == NotANumber
  {
    if NumericValue(parse, c).Num? { NumbersAre(parse, c, NumericValue(parse, c).r); }
  }

  /** An operand that stands for no number is an error. */
  lemma {:induction false} ArithmeticFails(
    env: Env, op: Arithmetic, l: Expr, r: Expr, a: Cell, b: Cell, row: CombinedRow, schemas: Schemas,
    names: multiset<string>)
    requires Has(env, l, row, schemas, names, a) && Has(env, r, row, schemas, names, b)
    ensures !IsNumber(env.parse, a) || !IsNumber(env.parse, b) ==>
      Value(env, Binary(op, l, r), row, schemas, names) == Failed
    ensures !IsNumber(env.parse, a) ==> Value(env, Negate(l), row, schemas, names) == Failed
  {
    BinaryIs(env, op, l, r, a, b, row, schemas, names);
    if !IsNumber(env.parse, a) { NoNumber(env.parse, a); }
    if !IsNumber(env.parse, b) { NoNumber(env.parse, b); }
  }

  // ----------------------------------------------------------- natural joins

  /** The columns two tables share. */
  lemma {:induction false} CommonAre(left: seq<string>, right: seq<string>)
    ensures forall c :: c in CommonColumns(left, right) <==> c in left && c in right
  {
    if right != [] {
      var n := |right| - 1;
      CommonAre(left, right[..n]);
      assert right == right[..n] + [right[n]];
    }
  }

  /** The comparison of one column of two tables. */
  ghost predicate SameColumn(
    env: Env, lt: string, rt: string, c: string, row: CombinedRow, schemas: Schemas, names: multiset<string>) {
    Is(env, Compare(Equal, Column(lt, c), Column(rt, c)), row, schemas, names, true)
  }

  /** The rows are equal in all these columns. */
  ghost predicate SameColumns(
    env: Env, lt: string, rt: string, common: seq<string>, row: CombinedRow, schemas: Schemas, names: multiset<string>)
  {
    forall k :: 0 <= k < |common| ==> SameColumn(env, lt, rt, common[k], row, schemas, names)
  }

  /** A natural join takes the pairs of rows that are equal in every column the tables share, and no other. */
  lemma {:induction false} NaturalJoinIs(
    env: Env, lt: string, rt: string, common: seq<string>, row: CombinedRow, schemas: Schemas, names: multiset<string>)
    ensures NaturallyJoined(env, lt, rt, common, row, schemas, names) == Done(true)
       <==> SameColumns(env, lt, rt, common, row, schemas, names)
    decreases |common|
  {
    if common != [] {
      var n := |common| - 1;
      var init, c := common[..n], common[n];
      NaturalJoinIs(env, lt, rt, init, row, schemas, names);
      forall k | 0 <= k < n ensures common[k] == init[k] {}
      assert SameColumns(env, lt, rt, common, row, schemas, names) <==>
        SameColumns(env, lt, rt, init, row, schemas, names) && SameColumn(env, lt, rt, c, row, schemas, names);
      NaturalStep(env, lt, rt, common, row, schemas, names);
    }
  }

  lemma {:induction false} NaturalStep(
    env: Env, lt: string, rt: string, common: seq<string>, row: CombinedRow, schemas: Schemas, names: multiset<string>)
    requires common != []
    ensures var n := |common| - 1;
      NaturallyJoined(env, lt, rt, common, row, schemas, names) ==
      AndThen(NaturallyJoined(env, lt, rt, common[..n], row, schemas, names),
              Holds(env, Compare(Equal, Column(lt, common[n]), Column(rt, common[n])), row, schemas, names))
  {
    var n := |common| - 1;
    var x, y := Value(env, Column(lt, common[n]), row, schemas, names),
                Value(env, Column(rt, common[n]), row, schemas, names);
    assert Holds(env, Compare(Equal, Column(lt, common[n]), Column(rt, common[n])), row, schemas, names)
        == Compared(env, Equal, OrNull(x), OrNull(y));
  }

  // ------------------------------------------------------------------ LIMIT

  /** The page has the rows from the offset on, as many as asked for or as there are. */
  predicate IsPage<T(==)>(offset: nat, count: nat, rows: seq<T>, page: seq<T>) {
    && |page| <= count && (|page| == count || |page| + offset >= |rows|)
    && forall i :: 0 <= i < |page| ==> offset + i < |rows| && page[i] == rows[offset + i]
  }

  lemma {:induction false} LimitTakes<T>(offset: nat, count: nat, rows: seq<T>)
    ensures IsPage(offset, count, rows, Slice(Limit(offset, count), rows))
    ensures Slice(NoLimit, rows) == rows
  {
  }

  /** ORDER BY and LIMIT of an aggregate query: its results are sorted first, and then the page is taken. */
  lemma {:induction false} AggregatePageMeans(
    env: Env, s: Select, schemas: Schemas, rows: seq<CombinedRow>, kept: seq<CombinedRow>, groups: seq<ResultRow>)
    returns (page: seq<ResultRow>)
    requires AllSchemas(env, s.from) == Done(schemas) && FromRowsOf(env, s.from, schemas) == Done(rows)
    requires Filtered(env, s.filter, rows, map[], schemas, multiset(Names(s.from))) == Done(kept)
    requires env.aggregate(s.items, s.grouping, kept, schemas, multiset(Names(s.from))) == Done(groups)
    requires IsAggregate(s) && s.order != [] && s.limit.Limit?
    ensures Query(env, s) == Done(page)
    ensures IsPage(s.limit.offset, s.limit.count, env.sortResults(s.order, groups), page)
  {
    page := Slice(s.limit, env.sortResults(s.order, groups));
    LimitTakes(s.limit.offset, s.limit.count, env.sortResults(s.order, groups));
  }

  /** A subquery sorts its result rows and then takes the page. */
  lemma {:induction false} SubqueryPageMeans(
    env: Env, s: Select, own: Schemas, rows: seq<CombinedRow>, outer: CombinedRow, outerSchemas: Schemas,
    kept: seq<CombinedRow>, results: seq<ResultRow>) returns (page: seq<ResultRow>)
    requires AllSchemas(env, s.from) == Done(own) && FromRowsOf(env, s.from, own) == Done(rows) && !IsAggregate(s)
    requires var schemas, names := Effective(own, outerSchemas, SelectRefs(s)), multiset(Names(s.from));
      && Filtered(env, s.filter, rows, outer, schemas, names) == Done(kept)
      && Project(env, s.items, kept, schemas, names) == Done(results)
    requires s.order != [] && s.limit.Limit?
    ensures Subquery(env, s, outer, outerSchemas) == Done(page)
    ensures IsPage(s.limit.offset, s.limit.count, env.sortResults(s.order, results), page)
  {
    page := Slice(s.limit, env.sortResults(s.order, results));
    LimitTakes(s.limit.offset, s.limit.count, env.sortResults(s.order, results));
    S.SubqueryIs(env, s, outer, outerSchemas, own, rows);
  }

  /** Two pages that follow each other are one longer page. */
  lemma {:induction false} PagesJoin<T>(offset: nat, first: nat, second: nat, rows: seq<T>)
    ensures Slice(Limit(offset, first), rows) + Slice(Limit(offset + first, second), rows)
         == Slice(Limit(offset, first + second), rows)
  {
    var a, b, c := Slice(Limit(offset, first), rows), Slice(Limit(offset + first, second), rows),
                   Slice(Limit(offset, first + second), rows);
    if offset + first >= |rows| { Seqs.Empty(a); }
  }
}
