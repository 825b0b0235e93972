/**
 Correlated subqueries that do reach the row of the query around them (pkg/core/query.go): what the subquery answers for
 one outer row, and which outer rows EXISTS, NOT IN and a scalar subquery then keep.
 */
module Correlation {
  import opened Cells
  import opened Joins
  import opened Identifiers
  import opened Options
  import opened Evaluator
  import S = Subqueries
  import Q = QueryForms
  import L = QueryLaws

  // ------------------------------------------------- seeing the outer row

  /** A table of the outer row that the subquery may ask for. */
  predicate InReach(s: Select, outer: CombinedRow, outerSchemas: Schemas, t: string) {
    t != "" && t in SelectRefs(s) && t in outer && t in outerSchemas
  }

  /** Inside a subquery a column of an outer table it refers to has the value it has in the outer row. */
  lemma {:induction false} OuterColumn(
    env: Env, s: Select, own: Schemas, row: CombinedRow, outer: CombinedRow, outerSchemas: Schemas, t: string,
    c: string, names: multiset<string>)
    requires InReach(s, outer, outerSchemas, t) && "result" !in row && "result" !in outer
    ensures L.Has(env, Column(t, c), Merge(row, outer), Effective(own, outerSchemas, SelectRefs(s)), names,
                  if c in outer[t] then outer[t][c] else Null)
  {
    L.ColumnIs(env, t, c, Merge(row, outer), Effective(own, outerSchemas, SelectRefs(s)), names);
  }

  /** And a column of its own tables has the value it has there, when the outer row has no table of that name. */
  lemma {:induction false} OwnColumn(
    env: Env, s: Select, own: Schemas, row: CombinedRow, outer: CombinedRow, outerSchemas: Schemas, t: string,
    c: string, names: multiset<string>)
    requires t != "" && t in row && t in own && t !in outer && "result" !in row && "result" !in outer
    ensures L.Has(env, Column(t, c), Merge(row, outer), Effective(own, outerSchemas, SelectRefs(s)), names,
                  if c in row[t] then row[t][c] else Null)
  {
    L.ColumnIs(env, t, c, Merge(row, outer), Effective(own, outerSchemas, SelectRefs(s)), names);
  }

  // ------------------------------------- SELECT o.a FROM o WHERE o.x = c.y

  /** SELECT o.`shown` FROM `table` AS o WHERE o.`key` `op` c.`outerKey`, without the alias where it is empty. */
  datatype Link = Link(
    table: string, alias: string, shown: string, key: string, op: Operator, outer: string, outerKey: string)

  function Own(k: Link): string { KeyOf(k.table, k.alias) }

  function Where(k: Link): Expr { Compare(k.op, Column(Own(k), k.key), Column(k.outer, k.outerKey)) }

  function Linked(k: Link): Select {
    Select([Named(Column(Own(k), k.shown), k.shown)], [Stored(k.table, k.alias)], Some(Where(k)), [], [], NoLimit)
  }

  /** The tables of the subquery and of the query around it, by different names. */
  predicate Fits(env: Env, k: Link, outer: CombinedRow, outerSchemas: Schemas) {
    && k.table in env.tables && Own(k) !in {"", "result"} && k.outer != ""
    && k.outer in outer && k.outer in outerSchemas && Own(k) !in outer && "result" !in outer
  }

  /** What a row holds in a column, NULL if nothing. */
  function CellOf(row: Row, c: string): Cell { if c in row then row[c] else Null }

  /** How a row of the subquery's table compares with the outer row. */
  function Matching(env: Env, k: Link, row: Row, outer: Row): Outcome<bool> {
    var x, y := CellOf(row, k.key), CellOf(outer, k.outerKey);
    if x != Null && y != Null then env.compare(k.op, x, y)
    else
      match k.op
      case Equal => Done(x == Null && y == Null)
      case NotEqual => Done(x != Null || y != Null)
      case _ => Done(false)
  }

  /** `at` lists, in order, the rows that match the outer row. */
  predicate Matches(env: Env, k: Link, rows: seq<Row>, outer: Row, at: seq<nat>) {
    && L.Increasing(at)
    && (forall i :: 0 <= i < |at| ==> at[i] < |rows| && Matching(env, k, rows[at[i]], outer) == Done(true))
    && forall i: nat :: i < |rows| && Matching(env, k, rows[i], outer) == Done(true) ==> i in at
  }

  /** Every row can be compared with the outer row. */
  predicate Comparable(env: Env, k: Link, rows: seq<Row>, outer: Row) {
    forall i :: 0 <= i < |rows| ==> Matching(env, k, rows[i], outer).Done?
  }

  /** The results show the column of the rows at these places. */
  predicate ShowsAt(results: seq<ResultRow>, rows: seq<Row>, c: string, at: seq<nat>) {
    && |results| == |at|
    && forall i :: 0 <= i < |at| ==> at[i] < |rows| && results[i] == map[c := CellOf(rows[at[i]], c)]
  }

  lemma {:induction false} LinkRefers(k: Link)
    requires k.outer != ""
    ensures k.outer in SelectRefs(Linked(k))
  {
    assert k.outer in Refs(Where(k));
  }

  /** What the subquery's FROM list gives. */
  lemma {:induction false} LinkedFrom(env: Env, k: Link)
    requires k.table in env.tables
    ensures var own := StoredSchemas(k.table, k.alias, env.tables[k.table].columns);
      && AllSchemas(env, Linked(k).from) == Done(own) && Own(k) in own
      && FromRowsOf(env, Linked(k).from, own) == Done(Tagged(Own(k), env.tables[k.table].rows))
  {
    var own := StoredSchemas(k.table, k.alias, env.tables[k.table].columns);
    Q.SchemasOfOne(env, Stored(k.table, k.alias));
    Q.RowsOfOne(env, Stored(k.table, k.alias), own);
  }

  /** The schemas inside the subquery. */
  ghost function Inside(env: Env, k: Link, outerSchemas: Schemas): Schemas
    requires k.table in env.tables
  {
    Effective(StoredSchemas(k.table, k.alias, env.tables[k.table].columns), outerSchemas, SelectRefs(Linked(k)))
  }

  /** One row of the subquery's table beside the outer row. */
  function Beside(k: Link, row: Row, outer: CombinedRow): CombinedRow { Merge(map[Own(k) := row], outer) }

  lemma {:induction false} LinkedHolds(
    env: Env, k: Link, row: Row, outer: CombinedRow, outerSchemas: Schemas, names: multiset<string>)
    requires Fits(env, k, outer, outerSchemas)
    ensures Holds(env, Where(k), Beside(k, row, outer), Inside(env, k, outerSchemas), names)
         == Matching(env, k, row, outer[k.outer])
    ensures L.Has(env, Column(Own(k), k.shown), Beside(k, row, outer), Inside(env, k, outerSchemas), names,
                  CellOf(row, k.shown))
  {
    var own: CombinedRow, schemas := map[Own(k) := row], StoredSchemas(k.table, k.alias, env.tables[k.table].columns);
    LinkRefers(k);
    OwnColumn(env, Linked(k), schemas, own, outer, outerSchemas, Own(k), k.key, names);
    OwnColumn(env, Linked(k), schemas, own, outer, outerSchemas, Own(k), k.shown, names);
    OuterColumn(env, Linked(k), schemas, own, outer, outerSchemas, k.outer, k.outerKey, names);
    HoldsOf(env, k.op, Column(Own(k), k.key), Column(k.outer, k.outerKey), CellOf(row, k.key),
            CellOf(outer[k.outer], k.outerKey), Beside(k, row, outer), Inside(env, k, outerSchemas), names);
  }

  lemma {:induction false} HoldsOf(
    env: Env, op: Operator, l: Expr, r: Expr, a: Cell, b: Cell, row: CombinedRow, schemas: Schemas,
    names: multiset<string>)
    requires L.Has(env, l, row, schemas, names, a) && L.Has(env, r, row, schemas, names, b)
    ensures Holds(env, Compare(op, l, r), row, schemas, names) ==
      if a != Null && b != Null then env.compare(op, a, b)
      else match op
           case Equal => Done(a == Null && b == Null)
           case NotEqual => Done(a != Null || b != Null)
           case _ => Done(false)
  {
    if a != Null && b != Null {
      L.Comparisons(env, op, l, r, a, b, row, schemas, names);
    } else {
      L.NullComparisons(env, l, r, a, b, row, schemas, names);
    }
  }

  /** The rows the subquery's WHERE clause keeps. */
  ghost function LinkedKept(env: Env, k: Link, outer: CombinedRow, outerSchemas: Schemas): Outcome<seq<CombinedRow>>
    requires k.table in env.tables
  {
    Filtered(env, Some(Where(k)), Tagged(Own(k), env.tables[k.table].rows), outer, Inside(env, k, outerSchemas),
             multiset(Names(Linked(k).from)))
  }

  lemma {:induction false} LinkedKeeps(env: Env, k: Link, outer: CombinedRow, outerSchemas: Schemas)
    returns (at: seq<nat>)
    requires Fits(env, k, outer, outerSchemas)
    ensures Matches(env, k, env.tables[k.table].rows, outer[k.outer], at)
    ensures L.Gives(LinkedKept(env, k, outer, outerSchemas),
                    Comparable(env, k, env.tables[k.table].rows, outer[k.outer]),
                    Tagged(Own(k), env.tables[k.table].rows), outer, at)
  {
    var rows, names := env.tables[k.table].rows, multiset(Names(Linked(k).from));
    var tagged, schemas := Tagged(Own(k), rows), Inside(env, k, outerSchemas);
    at := L.WhereKeeps(env, Where(k), tagged, outer, schemas, names);
    forall i: nat | i < |rows|
      ensures L.Wanted(env, Where(k), tagged, outer, schemas, names, i)
         <==> Matching(env, k, rows[i], outer[k.outer]) == Done(true)
      ensures L.Tested(env, Where(k), tagged, outer, schemas, names, i)
         <==> Matching(env, k, rows[i], outer[k.outer]).Done?
    {
      assert Merge(tagged[i], outer) == Beside(k, rows[i], outer);
      LinkedHolds(env, k, rows[i], outer, outerSchemas, names);
    }
    forall i | 0 <= i < |at| ensures at[i] < |rows| && L.Wanted(env, Where(k), tagged, outer, schemas, names, at[i]) {
      assert at[i] in at;
    }
  }

  lemma {:induction false} LinkedShows(
    env: Env, k: Link, row: Row, outer: CombinedRow, outerSchemas: Schemas, names: multiset<string>)
    requires Fits(env, k, outer, outerSchemas)
    ensures ProjectRow(env, Linked(k).items, Beside(k, row, outer), Inside(env, k, outerSchemas), names)
         == Done(map[k.shown := CellOf(row, k.shown)])
  {
    var items, full, schemas := Linked(k).items, Beside(k, row, outer), Inside(env, k, outerSchemas);
    LinkedHolds(env, k, row, outer, outerSchemas, names);
    L.ResultRowIs(env, items, full, schemas, names);
    var result := ProjectRow(env, items, full, schemas, names);
    assert L.LastNamed(items, k.shown, 0);
    assert forall name :: L.IsNamed(items, name) <==> name == k.shown;
    assert result.value == map[k.shown := CellOf(row, k.shown)];
  }

  lemma {:induction false} LinkedProjects(
    env: Env, k: Link, outer: CombinedRow, outerSchemas: Schemas, kept: seq<CombinedRow>, at: seq<nat>)
    returns (results: seq<ResultRow>)
    requires Fits(env, k, outer, outerSchemas)
    requires L.RowsAt(kept, Tagged(Own(k), env.tables[k.table].rows), outer, at)
    ensures var names := multiset(Names(Linked(k).from));
      Project(env, Linked(k).items, kept, Inside(env, k, outerSchemas), names) == Done(results)
    ensures ShowsAt(results, env.tables[k.table].rows, k.shown, at)
  {
    var rows, names := env.tables[k.table].rows, multiset(Names(Linked(k).from));
    var schemas := Inside(env, k, outerSchemas);
    S.ProjectSucceeds(env, Linked(k).items, kept, schemas, names);
    forall i | 0 <= i < |kept|
      ensures ProjectRow(env, Linked(k).items, kept[i], schemas, names)
           == Done(map[k.shown := CellOf(rows[at[i]], k.shown)])
    {
      assert kept[i] == Beside(k, rows[at[i]], outer);
      LinkedShows(env, k, rows[at[i]], outer, outerSchemas, names);
    }
    results := Project(env, Linked(k).items, kept, schemas, names).value;
  }

  lemma {:induction false} LinkedIsPlain(env: Env, k: Link, results: seq<ResultRow>)
    ensures !IsAggregate(Linked(k)) && Finished(env, Linked(k), Done(results)) == Done(results)
  {
  }

  lemma {:induction false} LinkedSubquery(env: Env, k: Link, outer: CombinedRow, outerSchemas: Schemas)
    requires k.table in env.tables
    ensures var kept := LinkedKept(env, k, outer, outerSchemas);
      Subquery(env, Linked(k), outer, outerSchemas) ==
      if !kept.Done? then kept.Rethrow()
      else Finished(env, Linked(k), Project(env, Linked(k).items, kept.value, Inside(env, k, outerSchemas),
                                            multiset(Names(Linked(k).from))))
  {
    LinkedFrom(env, k);
    LinkedIsPlain(env, k, []);
  }

  /**
   For one outer row the subquery fails exactly when some row of its table cannot be compared with the outer row, and
   otherwise shows exactly the rows that match it, in the order of the table.
   */
  lemma {:induction false} SubqueryMeans(env: Env, k: Link, outer: CombinedRow, outerSchemas: Schemas)
    returns (at: seq<nat>)
    requires Fits(env, k, outer, outerSchemas)
    ensures Matches(env, k, env.tables[k.table].rows, outer[k.outer], at)
    ensures Subquery(env, Linked(k), outer, outerSchemas).Done?
       <==> Comparable(env, k, env.tables[k.table].rows, outer[k.outer])
    ensures Subquery(env, Linked(k), outer, outerSchemas).Done? ==>
      ShowsAt(Subquery(env, Linked(k), outer, outerSchemas).value, env.tables[k.table].rows, k.shown, at)
  {
    at := LinkedKeeps(env, k, outer, outerSchemas);
    var kept := LinkedKept(env, k, outer, outerSchemas);
    LinkedSubquery(env, k, outer, outerSchemas);
    if kept.Done? {
      var results := LinkedProjects(env, k, outer, outerSchemas, kept.value, at);
      LinkedIsPlain(env, k, results);
    }
  }

  // ------------------------------------------------------------ the semi-join

  /** Some row of the subquery's table matches the outer row. */
  predicate HasMatch(env: Env, k: Link, rows: seq<Row>, outer: Row) {
    exists i :: 0 <= i < |rows| && Matching(env, k, rows[i], outer) == Done(true)
  }

  lemma {:induction false} ExistsMeans(
    env: Env, k: Link, outer: CombinedRow, outerSchemas: Schemas, names: multiset<string>)
    requires Fits(env, k, outer, outerSchemas)
    ensures var rows := env.tables[k.table].rows;
      && (Holds(env, Exists(Linked(k)), outer, outerSchemas, names).Done?
          <==> Comparable(env, k, rows, outer[k.outer]))
      && (Comparable(env, k, rows, outer[k.outer]) ==>
            L.Is(env, Exists(Linked(k)), outer, outerSchemas, names, HasMatch(env, k, rows, outer[k.outer])))
  {
    var rows := env.tables[k.table].rows;
    var at := SubqueryMeans(env, k, outer, outerSchemas);
    if HasMatch(env, k, rows, outer[k.outer]) {
      var i: nat :| i < |rows| && Matching(env, k, rows[i], outer[k.outer]) == Done(true);
      assert i in at;
    }
    if at != [] { assert Matching(env, k, rows[at[0]], outer[k.outer]) == Done(true); }
  }

  /** Row `i` of the query around the subquery, a row of the one table of its FROM list. */
  predicate OuterFits(env: Env, k: Link, outer: seq<Row>, schemas: Schemas) {
    && k.outer !in {"", "result", Own(k)} && k.outer in schemas
    && k.table in env.tables && Own(k) !in {"", "result"}
  }

  /** Every outer row can be compared with every row of the subquery's table. */
  predicate AllComparable(env: Env, k: Link, rows: seq<Row>, outer: seq<Row>) {
    forall i :: 0 <= i < |outer| ==> Comparable(env, k, rows, outer[i])
  }

  /** `at` lists, in order, the outer rows that have a match. */
  ghost predicate Partnered(env: Env, k: Link, rows: seq<Row>, outer: seq<Row>, at: seq<nat>) {
    L.Increasing(at) && forall i: nat :: i in at <==> i < |outer| && HasMatch(env, k, rows, outer[i])
  }

  lemma {:induction false} OuterExists(
    env: Env, k: Link, outer: seq<Row>, schemas: Schemas, names: multiset<string>, i: nat)
    requires OuterFits(env, k, outer, schemas)
    ensures var e, rows, all := Exists(Linked(k)), env.tables[k.table].rows, Tagged(k.outer, outer);
      && (L.Tested(env, e, all, map[], schemas, names, i) <==> i < |outer| ==> Comparable(env, k, rows, outer[i]))
      && (i < |outer| && Comparable(env, k, rows, outer[i]) ==>
            (L.Wanted(env, e, all, map[], schemas, names, i) <==> HasMatch(env, k, rows, outer[i])))
  {
    if i < |outer| {
      var one: CombinedRow := map[k.outer := outer[i]];
      assert Merge(Tagged(k.outer, outer)[i], map[]) == one;
      ExistsMeans(env, k, one, schemas, names);
    }
  }

  /**
   WHERE EXISTS (SELECT ... WHERE o.x = c.y) over the rows of c is the semi-join: it fails exactly when some pair of
   rows cannot be compared, and otherwise keeps exactly the rows of c that some row of o matches, each once and in
   order.
   */
  lemma {:induction false} SemiJoin(env: Env, k: Link, outer: seq<Row>, schemas: Schemas, names: multiset<string>)
    returns (at: seq<nat>)
    requires OuterFits(env, k, outer, schemas)
    ensures var rows := env.tables[k.table].rows;
      var kept := Filtered(env, Some(Exists(Linked(k))), Tagged(k.outer, outer), map[], schemas, names);
      && (kept.Done? <==> AllComparable(env, k, rows, outer))
      && (kept.Done? ==> Partnered(env, k, rows, outer, at))
      && (kept.Done? ==> L.RowsAt(kept.value, Tagged(k.outer, outer), map[], at))
  {
    var e, all := Exists(Linked(k)), Tagged(k.outer, outer);
    at := L.WhereKeeps(env, e, all, map[], schemas, names);
    TestedExactly(env, k, outer, schemas, names);
    if L.AllTested(env, e, all, map[], schemas, names) { PartneredExactly(env, k, outer, schemas, names, at); }
  }

  lemma {:induction false} TestedExactly(
    env: Env, k: Link, outer: seq<Row>, schemas: Schemas, names: multiset<string>)
    requires OuterFits(env, k, outer, schemas)
    ensures L.AllTested(env, Exists(Linked(k)), Tagged(k.outer, outer), map[], schemas, names)
       <==> AllComparable(env, k, env.tables[k.table].rows, outer)
  {
    var rows := env.tables[k.table].rows;
    forall i: nat
      ensures L.Tested(env, Exists(Linked(k)), Tagged(k.outer, outer), map[], schemas, names, i)
         <==> i < |outer| ==> Comparable(env, k, rows, outer[i])
    {
      OuterExists(env, k, outer, schemas, names, i);
    }
  }

  lemma {:induction false} PartneredExactly(
    env: Env, k: Link, outer: seq<Row>, schemas: Schemas, names: multiset<string>, at: seq<nat>)
    requires OuterFits(env, k, outer, schemas) && AllComparable(env, k, env.tables[k.table].rows, outer)
    requires L.Kept(env, Exists(Linked(k)), Tagged(k.outer, outer), map[], schemas, names, at)
    ensures Partnered(env, k, env.tables[k.table].rows, outer, at)
  {
    var rows := env.tables[k.table].rows;
    forall i: nat ensures i in at <==> i < |outer| && HasMatch(env, k, rows, outer[i]) {
      OuterExists(env, k, outer, schemas, names, i);
    }
  }

  // ------------------------------------------ the query around the subquery

  /** SELECT c.`shown` FROM c WHERE EXISTS (...), where `c` is the table the subquery refers to. */
  function Around(k: Link, shown: string): Select {
    Select([Named(Column(k.outer, shown), shown)], [Stored(k.outer, "")], Some(Exists(Linked(k))), [], [], NoLimit)
  }

  lemma {:induction false} AroundFrom(env: Env, k: Link, shown: string)
    requires k.outer in env.tables
    ensures var own := StoredSchemas(k.outer, "", env.tables[k.outer].columns);
      && AllSchemas(env, Around(k, shown).from) == Done(own) && k.outer in own
      && FromRowsOf(env, Around(k, shown).from, own) == Done(Tagged(k.outer, env.tables[k.outer].rows))
  {
    Q.SchemasOfOne(env, Stored(k.outer, ""));
    Q.RowsOfOne(env, Stored(k.outer, ""), StoredSchemas(k.outer, "", env.tables[k.outer].columns));
  }

  lemma {:induction false} AroundShows(
    env: Env, k: Link, shown: string, row: Row, schemas: Schemas, names: multiset<string>, result: ResultRow)
    requires k.outer !in {"", "result"} && k.outer in schemas
    ensures L.AllHaveValues(env, Around(k, shown).items, map[k.outer := row], schemas, names)
    ensures L.Shows(env, Around(k, shown).items, map[k.outer := row], schemas, names, result) ==>
      result == map[shown := CellOf(row, shown)]
  {
    var items := Around(k, shown).items;
    L.ColumnIs(env, k.outer, shown, map[k.outer := row], schemas, names);
    assert L.LastNamed(items, shown, 0);
    assert forall name :: L.IsNamed(items, name) <==> name == shown;
  }

  /** The whole query shows the column of exactly the rows of c with a match in o, in the order of c. */
  lemma {:induction false} SemiJoinQuery(env: Env, k: Link, shown: string) returns (at: seq<nat>)
    requires k.outer !in {"", "result", Own(k)} && k.outer in env.tables
    requires k.table in env.tables && Own(k) !in {"", "result"}
    ensures var rows, outer, r := env.tables[k.table].rows, env.tables[k.outer].rows, Query(env, Around(k, shown));
      && (r.Done? <==> AllComparable(env, k, rows, outer))
      && (r.Done? ==> Partnered(env, k, rows, outer, at))
      && (r.Done? ==> ShowsAt(r.value, outer, shown, at))
  {
    var s, outer := Around(k, shown), env.tables[k.outer].rows;
    var schemas, names := StoredSchemas(k.outer, "", env.tables[k.outer].columns), multiset(Names(s.from));
    var all := Tagged(k.outer, outer);
    AroundFrom(env, k, shown);
    at := L.SelectMeans(env, s, schemas, all);
    TestedExactly(env, k, outer, schemas, names);
    forall i, result: ResultRow | 0 <= i < |outer|
      ensures L.AllHaveValues(env, s.items, all[i], schemas, names)
      ensures L.Shows(env, s.items, all[i], schemas, names, result) ==> result == map[shown := CellOf(outer[i], shown)]
    {
      AroundShows(env, k, shown, outer[i], schemas, names, result);
    }
    if AllComparable(env, k, env.tables[k.table].rows, outer) {
      PartneredExactly(env, k, outer, schemas, names, at);
    }
  }
}
