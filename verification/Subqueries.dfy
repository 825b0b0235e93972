/**
 Correlated subqueries (pkg/core/query.go): a subquery that names no table of the query around it gives one result,
 whatever the outer row, and it is the result of the subquery run as a query of its own.
 */
module Subqueries {
  import opened Cells
  import opened Joins
  import opened FromClause
  import opened Identifiers
  import opened Options
  import opened Evaluator
  import Seqs

  // ------------------------------------------------- which tables a query names

  /** The table names that reading the expression can look up, in it and in the subqueries inside it. */
  function Mentions(e: Expr): set<string> {
    match e
    case Column(q, _) => if q == "" then {} else {q}
    case Negate(x) => Mentions(x)
    case Binary(_, l, r) => Mentions(l) + Mentions(r)
    case Scalar(s) => SelectMentions(s)
    case Exists(s) => SelectMentions(s)
    case And(l, r) => Mentions(l) + Mentions(r)
    case Or(l, r) => Mentions(l) + Mentions(r)
    case IsNull(x, _) => Mentions(x)
    case Compare(_, l, r) => Mentions(l) + Mentions(r)
    case InSelect(x, s, _) => Mentions(x) + SelectMentions(s)
    case InList(x, items, _) => Mentions(x) + (set i, t | 0 <= i < |items| && t in Mentions(items[i]) :: t)
    case IsLike(x, p, _) => Mentions(x) + Mentions(p)
    case _ => {}
  }

  function SelectMentions(s: Select): set<string> {
    SelectRefs(s)
    + FromTables(s.from)
    + (set i, t | 0 <= i < |s.items| && s.items[i].Named? && t in Mentions(s.items[i].e) :: t)
    + (if s.filter.Some? then Mentions(s.filter.value) else {})
  }

  /** The names a FROM item brings into scope. */
  function Tables(s: Source): set<string> {
    match s
    case Stored(t, a) => {t, KeyOf(t, a)}
    case Derived(_, a) => {a}
    case Joined(l, r, _, _) => Tables(l) + Tables(r)
  }

  function FromTables(from: seq<Source>): set<string> {
    if from == [] then {} else FromTables(from[..|from| - 1]) + Tables(from[|from| - 1])
  }

  /** No star and no aggregate in the subqueries of the expression. */
  predicate Simple(e: Expr) {
    match e
    case Negate(x) => Simple(x)
    case Binary(_, l, r) => Simple(l) && Simple(r)
    case Scalar(s) => SimpleSelect(s)
    case Exists(s) => SimpleSelect(s)
    case And(l, r) => Simple(l) && Simple(r)
    case Or(l, r) => Simple(l) && Simple(r)
    case IsNull(x, _) => Simple(x)
    case Compare(_, l, r) => Simple(l) && Simple(r)
    case InSelect(x, s, _) => Simple(x) && SimpleSelect(s)
    case InList(x, items, _) => Simple(x) && forall i :: 0 <= i < |items| ==> Simple(items[i])
    case IsLike(x, p, _) => Simple(x) && Simple(p)
    case _ => true
  }

  predicate SimpleSelect(s: Select) {
    && !IsAggregate(s)
    && (forall i :: 0 <= i < |s.items| ==> s.items[i].Named? && Simple(s.items[i].e))
    && (s.filter.Some? ==> Simple(s.filter.value))
  }

  lemma {:induction false} SourceSchemasAreNamed(env: Env, s: Source)
    ensures SourceSchemas(env, s).Done? ==> SourceSchemas(env, s).value.Keys <= Tables(s)
    ensures forall t :: t in SourceNames(s) ==> t in Tables(s)
  {
    match s
    case Joined(l, r, _, _) =>
      SourceSchemasAreNamed(env, l);
      SourceSchemasAreNamed(env, r);
    case _ =>
  }

  lemma {:induction false} FromIsNamed(env: Env, from: seq<Source>)
    ensures AllSchemas(env, from).Done? ==> AllSchemas(env, from).value.Keys <= FromTables(from)
    ensures forall t :: t in Names(from) ==> t in FromTables(from)
  {
    if from != [] {
      var n := |from| - 1;
      FromIsNamed(env, from[..n]);
      SourceSchemasAreNamed(env, from[n]);
    }
  }

  // ---------------------------------------- extra tables that nobody looks up

  /** Tables that no lookup over the schemas, the FROM names or the mentioned names can reach. */
  ghost predicate Apart(extra: CombinedRow, schemas: Schemas, names: multiset<string>, mentioned: set<string>) {
    && "result" !in extra
    && forall t :: t in extra ==> t !in schemas && t !in names && t !in mentioned
  }

  lemma {:induction false} MergeMiss(row: CombinedRow, extra: CombinedRow, t: string)
    requires t !in extra
    ensures (t in Merge(row, extra) <==> t in row) && (t in row ==> Merge(row, extra)[t] == row[t])
  {
  }

  lemma {:induction false} UnqualifiedFrame(
    row: CombinedRow, extra: CombinedRow, c: string, schemas: Schemas, names: multiset<string>)
    requires forall t :: t in extra ==> t !in names
    ensures Unqualified(Merge(row, extra), c, schemas, names) == Unqualified(row, c, schemas, names)
  {
    var merged := Merge(row, extra);
    forall t | t in names
      ensures HasValue(merged, t, c) == HasValue(row, t, c) && ValueIn(merged, t, c) == ValueIn(row, t, c)
    {
      MergeMiss(row, extra, t);
    }
    assert Unknown(merged, c, schemas, names) == Unknown(row, c, schemas, names);
    forall t ensures Means(merged, c, schemas, names, t) == Means(row, c, schemas, names, t) {
      assert SoleHolder(names, merged, c, t) == SoleHolder(names, row, c, t);
      assert SoleOwner(names, schemas, c, t) ==> t in names;
    }
    forall t, u | Means(row, c, schemas, names, t) && Means(row, c, schemas, names, u)
      ensures t == u
    {
    }
  }

  lemma {:induction false} ColumnFrame(
    q: string, c: string, row: CombinedRow, extra: CombinedRow, schemas: Schemas, names: multiset<string>)
    requires Apart(extra, schemas, names, if q == "" then {} else {q})
    ensures ColumnValue(q, c, Merge(row, extra), schemas, names) == ColumnValue(q, c, row, schemas, names)
  {
    MergeMiss(row, extra, "result");
    if q == "" {
      UnqualifiedFrame(row, extra, c, schemas, names);
    } else {
      MergeMiss(row, extra, q);
      if q in schemas {
        var holder := schemas[q].holder;
        if holder in schemas { MergeMiss(row, extra, holder); }
      }
    }
  }

  lemma {:induction false} ValueFrame(
    env: Env, e: Expr, row: CombinedRow, extra: CombinedRow, schemas: Schemas, names: multiset<string>)
    requires Simple(e) && Apart(extra, schemas, names, Mentions(e))
    ensures Value(env, e, Merge(row, extra), schemas, names) == Value(env, e, row, schemas, names)
    decreases e
  {
    match e
    case Column(q, c) => ColumnFrame(q, c, row, extra, schemas, names);
    case Negate(x) => ValueFrame(env, x, row, extra, schemas, names);
    case Binary(_, l, r) =>
      ValueFrame(env, l, row, extra, schemas, names);
      ValueFrame(env, r, row, extra, schemas, names);
    case Scalar(s) => SubqueryFrame(env, s, row, extra, schemas);
    case _ =>
  }

  lemma {:induction false} HoldsFrame(
    env: Env, e: Expr, row: CombinedRow, extra: CombinedRow, schemas: Schemas, names: multiset<string>)
    requires Simple(e) && Apart(extra, schemas, names, Mentions(e))
    ensures Holds(env, e, Merge(row, extra), schemas, names) == Holds(env, e, row, schemas, names)
    decreases e, 2
  {
    match e
    case Exists(s) => SubqueryFrame(env, s, row, extra, schemas);
    case And(l, r) =>
      HoldsFrame(env, l, row, extra, schemas, names);
      HoldsFrame(env, r, row, extra, schemas, names);
    case Or(l, r) =>
      HoldsFrame(env, l, row, extra, schemas, names);
      HoldsFrame(env, r, row, extra, schemas, names);
    case _ => TestFrame(env, e, row, extra, schemas, names);
  }

  /** The tests of values. */
  lemma {:induction false} TestFrame(
    env: Env, e: Expr, row: CombinedRow, extra: CombinedRow, schemas: Schemas, names: multiset<string>)
    requires !e.Exists? && !e.And? && !e.Or? && Simple(e) && Apart(extra, schemas, names, Mentions(e))
    ensures Holds(env, e, Merge(row, extra), schemas, names) == Holds(env, e, row, schemas, names)
    decreases e, 1
  {
    match e
    case IsNull(x, _) => ValueFrame(env, x, row, extra, schemas, names);
    case Compare(_, l, r) =>
      ValueFrame(env, l, row, extra, schemas, names);
      ValueFrame(env, r, row, extra, schemas, names);
    case InSelect(x, s, _) =>
      ValueFrame(env, x, row, extra, schemas, names);
      SubqueryFrame(env, s, row, extra, schemas);
    case InList(x, items, _) => ListFrame(env, e, row, extra, schemas, names);
    case IsLike(x, p, _) =>
      ValueFrame(env, x, row, extra, schemas, names);
      ValueFrame(env, p, row, extra, schemas, names);
    case _ =>
  }

  lemma {:induction false} ListFrame(
    env: Env, e: Expr, row: CombinedRow, extra: CombinedRow, schemas: Schemas, names: multiset<string>)
    requires e.InList? && Simple(e) && Apart(extra, schemas, names, Mentions(e))
    ensures Holds(env, e, Merge(row, extra), schemas, names) == Holds(env, e, row, schemas, names)
    decreases e, 0
  {
    ValueFrame(env, e.e, row, extra, schemas, names);
    var v := OrNull(Value(env, e.e, row, schemas, names));
    if v.Done? { ItemsFrame(env, v.value, e.items, row, extra, schemas, names); }
  }

  lemma {:induction false} ItemsFrame(
    env: Env, x: Cell, items: seq<Expr>, row: CombinedRow, extra: CombinedRow, schemas: Schemas,
    names: multiset<string>)
    requires forall i :: 0 <= i < |items| ==> Simple(items[i]) && Apart(extra, schemas, names, Mentions(items[i]))
    ensures AnyItemIs(env, x, items, Merge(row, extra), schemas, names) == AnyItemIs(env, x, items, row, schemas, names)
    decreases items
  {
    if items != [] {
      ValueFrame(env, items[0], row, extra, schemas, names);
      ItemsFrame(env, x, items[1..], row, extra, schemas, names);
    }
  }

  /** The same rows, each with the extra tables. */
  function Spread(rows: seq<CombinedRow>, extra: CombinedRow): seq<CombinedRow> {
    seq(|rows|, k requires 0 <= k < |rows| => Merge(rows[k], extra))
  }

  function SpreadAll(kept: Outcome<seq<CombinedRow>>, extra: CombinedRow): Outcome<seq<CombinedRow>> {
    if kept.Done? then Done(Spread(kept.value, extra)) else kept
  }

  lemma {:induction false} MergeAssoc(row: CombinedRow, outer: CombinedRow, extra: CombinedRow)
    ensures Merge(row, Merge(outer, extra)) == Merge(Merge(row, outer), extra)
  {
  }

  lemma {:induction false} ExtendSpread(
    kept: Outcome<seq<CombinedRow>>, wanted: Outcome<bool>, row: CombinedRow, extra: CombinedRow)
    ensures Extend(SpreadAll(kept, extra), wanted, Merge(row, extra)) == SpreadAll(Extend(kept, wanted, row), extra)
  {
    if kept.Done? { assert Spread(kept.value + [row], extra) == Spread(kept.value, extra) + [Merge(row, extra)]; }
  }

  lemma {:induction false} FilteredFrame(
    env: Env, filter: Option<Expr>, rows: seq<CombinedRow>, outer: CombinedRow, extra: CombinedRow, schemas: Schemas,
    names: multiset<string>)
    requires filter.Some? && Simple(filter.value) && Apart(extra, schemas, names, Mentions(filter.value))
    ensures Filtered(env, filter, rows, Merge(outer, extra), schemas, names) ==
            SpreadAll(Filtered(env, filter, rows, outer, schemas, names), extra)
    decreases filter, |rows|
  {
    if rows == [] {
      assert Spread([], extra) == [];
    } else {
      var n := |rows| - 1;
      FilteredFrame(env, filter, rows[..n], outer, extra, schemas, names);
      MergeAssoc(rows[n], outer, extra);
      HoldsFrame(env, filter.value, Merge(rows[n], outer), extra, schemas, names);
      ExtendSpread(Filtered(env, filter, rows[..n], outer, schemas, names),
                   Holds(env, filter.value, Merge(rows[n], outer), schemas, names), Merge(rows[n], outer), extra);
    }
  }

  lemma {:induction false} ProjectRowFrame(
    env: Env, items: seq<SelectItem>, row: CombinedRow, extra: CombinedRow, schemas: Schemas, names: multiset<string>)
    requires forall i :: 0 <= i < |items| ==>
      items[i].Named? && Simple(items[i].e) && Apart(extra, schemas, names, Mentions(items[i].e))
    ensures ProjectRow(env, items, Merge(row, extra), schemas, names) == ProjectRow(env, items, row, schemas, names)
    decreases items, 0
  {
    if items != [] {
      var n := |items| - 1;
      ProjectRowFrame(env, items[..n], row, extra, schemas, names);
      ValueFrame(env, items[n].e, row, extra, schemas, names);
    }
  }

  lemma {:induction false} ProjectSnoc(
    env: Env, items: seq<SelectItem>, rows: seq<CombinedRow>, row: CombinedRow, schemas: Schemas,
    names: multiset<string>)
    ensures Project(env, items, rows + [row], schemas, names) ==
            Appended(Project(env, items, rows, schemas, names), ProjectRow(env, items, row, schemas, names))
  {
    assert (rows + [row])[..|rows|] == rows;
  }

  lemma {:induction false} ProjectFrame(
    env: Env, items: seq<SelectItem>, rows: seq<CombinedRow>, extra: CombinedRow, schemas: Schemas,
    names: multiset<string>)
    requires forall i :: 0 <= i < |items| ==>
      items[i].Named? && Simple(items[i].e) && Apart(extra, schemas, names, Mentions(items[i].e))
    ensures Project(env, items, Spread(rows, extra), schemas, names) == Project(env, items, rows, schemas, names)
    decreases items, |rows| + 1
  {
    if rows == [] {
      assert Spread(rows, extra) == [];
    } else {
      var n := |rows| - 1;
      var init, last := rows[..n], rows[n];
      ProjectFrame(env, items, init, extra, schemas, names);
      ProjectRowFrame(env, items, last, extra, schemas, names);
      assert rows == init + [last] && Spread(rows, extra) == Spread(init, extra) + [Merge(last, extra)];
      ProjectSnoc(env, items, init, last, schemas, names);
      ProjectSnoc(env, items, Spread(init, extra), Merge(last, extra), schemas, names);
    }
  }

  /** Tables of the outer row that the subquery cannot reach do not matter to it. */
  lemma {:induction false} SubqueryFrame(
    env: Env, s: Select, outer: CombinedRow, extra: CombinedRow, outerSchemas: Schemas)
    requires SimpleSelect(s) && Apart(extra, outerSchemas, multiset{}, SelectMentions(s))
    ensures Subquery(env, s, Merge(outer, extra), outerSchemas) == Subquery(env, s, outer, outerSchemas)
    decreases s, 1
  {
    var own := AllSchemas(env, s.from);
    if own.Done? {
      var rows := FromRowsOf(env, s.from, own.value);
      if rows.Done? {
        var schemas := Effective(own.value, outerSchemas, SelectRefs(s));
        var names := multiset(Names(s.from));
        FromIsNamed(env, s.from);
        assert FromTables(s.from) <= SelectMentions(s);
        assert schemas.Keys <= own.value.Keys + outerSchemas.Keys;
        assert Apart(extra, schemas, names, SelectMentions(s));
        RowsFrame(env, s, rows.value, outer, extra, schemas, names);
      }
    }
  }

  /** The rows of the subquery, filtered and projected. */
  lemma {:induction false} RowsFrame(
    env: Env, s: Select, rows: seq<CombinedRow>, outer: CombinedRow, extra: CombinedRow, schemas: Schemas,
    names: multiset<string>)
    requires SimpleSelect(s) && Apart(extra, schemas, names, SelectMentions(s))
    ensures var kept := Filtered(env, s.filter, rows, Merge(outer, extra), schemas, names);
      var kept' := Filtered(env, s.filter, rows, outer, schemas, names);
      && (if kept.Done? then kept'.Done? else kept == kept')
      && (kept.Done? ==>
            Project(env, s.items, kept.value, schemas, names) == Project(env, s.items, kept'.value, schemas, names))
    decreases s, 0
  {
    if s.filter.Some? {
      FilteredFrame(env, s.filter, rows, outer, extra, schemas, names);
      var kept := Filtered(env, s.filter, rows, outer, schemas, names);
      if kept.Done? { ProjectFrame(env, s.items, kept.value, extra, schemas, names); }
    }
  }

  // ------------------------------------------------------------ the theorems

  /** The subquery names no table of the query around it. */
  ghost predicate Uncorrelated(s: Select, outer: CombinedRow, outerSchemas: Schemas) {
    && SimpleSelect(s) && "result" !in outer
    && outer.Keys !! SelectMentions(s) && outerSchemas.Keys !! SelectMentions(s)
  }

  /** An uncorrelated subquery has one result for every outer row. */
  lemma {:induction false} UncorrelatedIsConstant(env: Env, s: Select, outer: CombinedRow, outerSchemas: Schemas)
    requires Uncorrelated(s, outer, outerSchemas)
    ensures Subquery(env, s, outer, outerSchemas) == Subquery(env, s, map[], map[])
  {
    assert Merge(map[], outer) == outer;
    SubqueryFrame(env, s, map[], outer, map[]);
    OuterSchemasUnused(env, s, outer, outerSchemas);
  }

  lemma {:induction false} OuterSchemasUnused(env: Env, s: Select, outer: CombinedRow, outerSchemas: Schemas)
    requires outerSchemas.Keys !! SelectMentions(s)
    ensures Subquery(env, s, outer, outerSchemas) == Subquery(env, s, outer, map[])
  {
    var own := AllSchemas(env, s.from);
    if own.Done? { OwnSchemasOnly(s, own.value, outerSchemas); }
  }

  lemma {:induction false} OwnSchemasOnly(s: Select, own: Schemas, outerSchemas: Schemas)
    requires outerSchemas.Keys !! SelectMentions(s)
    ensures Effective(own, outerSchemas, SelectRefs(s)) == own == Effective(own, map[], SelectRefs(s))
  {
  }

  lemma {:induction false} ProjectSucceeds(
    env: Env, items: seq<SelectItem>, rows: seq<CombinedRow>, schemas: Schemas, names: multiset<string>)
    ensures var r := Project(env, items, rows, schemas, names);
      && (r.Done? <==> forall i :: 0 <= i < |rows| ==> ProjectRow(env, items, rows[i], schemas, names).Done?)
      && (r.Done? ==> |r.value| == |rows| && forall i :: 0 <= i < |rows| ==>
            r.value[i] == ProjectRow(env, items, rows[i], schemas, names).value)
    decreases |rows|
  {
    if rows != [] {
      var n := |rows| - 1;
      var init, last := Project(env, items, rows[..n], schemas, names), ProjectRow(env, items, rows[n], schemas, names);
      ProjectSucceeds(env, items, rows[..n], schemas, names);
      assert Project(env, items, rows, schemas, names) == Appended(init, last);
      forall i | 0 <= i < |rows| ensures i == n || rows[i] == rows[..n][i] {}
    }
  }

  function SliceStart(
    limit: Limit, n: nat): nat { if limit.NoLimit? then 0 else if limit.offset >= n then n else limit.offset }

  function SliceLength(limit: Limit, n: nat): nat
    ensures SliceStart(limit, n) + SliceLength(limit, n) <= n
  {
    var rest := n - SliceStart(limit, n);
    if limit.NoLimit? || limit.count > rest then rest else limit.count
  }

  lemma {:induction false} SliceIs<T>(limit: Limit, rows: seq<T>)
    ensures var a, k := SliceStart(limit, |rows|), SliceLength(limit, |rows|); Slice(limit, rows) == rows[a..a + k]
  {
  }

  /** Where every row can be projected, LIMIT may be taken before or after. */
  lemma {:induction false} ProjectSlice(
    env: Env, items: seq<SelectItem>, limit: Limit, rows: seq<CombinedRow>, schemas: Schemas, names: multiset<string>)
    requires Project(env, items, rows, schemas, names).Done?
    ensures Project(env, items, Slice(limit, rows), schemas, names)
         == Done(Slice(limit, Project(env, items, rows, schemas, names).value))
  {
    var results, part := Project(env, items, rows, schemas, names).value, Slice(limit, rows);
    ProjectSucceeds(env, items, rows, schemas, names);
    ProjectSucceeds(env, items, part, schemas, names);
    SliceIs(limit, rows);
    SliceIs(limit, results);
    assert Project(env, items, part, schemas, names).value == Slice(limit, results);
  }

  /**
   It is the result of running the subquery as a query of its own, without ORDER BY. A LIMIT is then taken after the
   projection and not before, which matters only when some row beyond it cannot be projected.
   */
  lemma {:induction false} UncorrelatedIsQuery(env: Env, s: Select, outer: CombinedRow, outerSchemas: Schemas)
    requires Uncorrelated(s, outer, outerSchemas) && s.order == []
    ensures s.limit.NoLimit? || Subquery(env, s, outer, outerSchemas).Done? ==>
      Subquery(env, s, outer, outerSchemas) == Query(env, s)
  {
    UncorrelatedIsConstant(env, s, outer, outerSchemas);
    var own := AllSchemas(env, s.from);
    if own.Done? {
      OwnSchemasOnly(s, own.value, map[]);
      var rows, names := FromRowsOf(env, s.from, own.value), multiset(Names(s.from));
      if rows.Done? {
        var kept := Filtered(env, s.filter, rows.value, map[], own.value, names);
        if kept.Done? { LimitLater(env, s, kept.value, own.value, names); }
      }
    }
  }

  lemma {:induction false} LimitLater(
    env: Env, s: Select, kept: seq<CombinedRow>, schemas: Schemas, names: multiset<string>)
    requires s.order == []
    ensures var r := Finished(env, s, Project(env, s.items, kept, schemas, names));
      s.limit.NoLimit? || r.Done? ==> r == Selected(env, s.items, s.order, s.limit, Done(kept), schemas, names)
  {
    if Project(env, s.items, kept, schemas, names).Done? { ProjectSlice(env, s.items, s.limit, kept, schemas, names); }
  }

  /** What one result does to every row of a filter that asks whether a subquery has rows. */
  function AllOrNone<T>(results: Outcome<seq<ResultRow>>, rows: seq<T>): Outcome<seq<T>> {
    if rows == [] then Done([])
    else if !results.Done? then results.Rethrow()
    else if results.value == [] then Done([])
    else Done(rows)
  }

  lemma {:induction false} AllOrNoneStep(results: Outcome<seq<ResultRow>>, rows: seq<CombinedRow>, row: CombinedRow)
    ensures Extend(AllOrNone(results, rows), ExistsResult(results), row) == AllOrNone(results, rows + [row])
  {
    if rows == [] { Seqs.Empty([row]); }
  }

  lemma {:induction false} FilteredSnoc(
    env: Env, filter: Option<Expr>, rows: seq<CombinedRow>, row: CombinedRow, schemas: Schemas, names: multiset<string>)
    requires filter.Some?
    ensures Filtered(env, filter, rows + [row], map[], schemas, names) ==
            Extend(Filtered(env, filter, rows, map[], schemas, names), Holds(env, filter.value, row, schemas, names),
                   row)
  {
    assert (rows + [row])[..|rows|] == rows && Merge(row, map[]) == row;
  }

  /** WHERE EXISTS over an uncorrelated subquery keeps every row or none, as its one result has rows or not. */
  lemma {:induction false} ExistsKeepsAllOrNone(
    env: Env, s: Select, rows: seq<CombinedRow>, schemas: Schemas, names: multiset<string>)
    requires forall k :: 0 <= k < |rows| ==> Uncorrelated(s, rows[k], schemas)
    ensures Filtered(env, Some(Exists(s)), rows, map[], schemas, names)
         == AllOrNone(Subquery(env, s, map[], map[]), rows)
    decreases |rows|
  {
    if rows != [] {
      var n := |rows| - 1;
      var init, last := rows[..n], rows[n];
      assert rows == init + [last];
      ExistsKeepsAllOrNone(env, s, init, schemas, names);
      UncorrelatedIsConstant(env, s, last, schemas);
      FilteredSnoc(env, Some(Exists(s)), init, last, schemas, names);
      AllOrNoneStep(Subquery(env, s, map[], map[]), init, last);
    }
  }

  // ----------------------------------------------------- a name used twice

  /** Beside the outer row every table of the row still has its own row. */
  predicate KeepsOwnRows(row: CombinedRow, outer: CombinedRow) {
    forall t :: t in row ==> Merge(row, outer)[t] == row[t]
  }

  /** That is so for one outer row if and only if the tables they share have the same row in both. */
  lemma {:induction false} KeepsOwnRowsExactly(row: CombinedRow, outer: CombinedRow)
    ensures KeepsOwnRows(row, outer) <==> forall t :: t in row && t in outer ==> outer[t] == row[t]
  {
  }

  /** And for all outer rows over the same names if and only if no name is shared. */
  lemma {:induction false} NamesMustDiffer(row: CombinedRow, names: set<string>)
    ensures (forall outer: CombinedRow :: outer.Keys == names ==> KeepsOwnRows(row, outer)) <==> row.Keys !! names
  {
    if t :| t in row && t in names {
      var other: Row := if row[t] == map[] then map["" := Null] else map[];
      var outer: CombinedRow := map n | n in names :: other;
      assert other != row[t] by {
        if row[t] == map[] { assert "" in other; }
      }
      assert outer.Keys == names && Merge(row, outer)[t] == other;
      assert !KeepsOwnRows(row, outer);
    }
  }

  /** SELECT t.a FROM t WHERE t.a = 1 */
  function OnesOfT(): Select {
    var isOne := Compare(Equal, Column("t", "a"), Literal(Int(1)));
    Select([Named(Column("t", "a"), "a")], [Stored("t", "")], Some(isOne), [], [], NoLimit)
  }

  lemma {:induction false} OnesFrom(env: Env, schemas: Schemas)
    requires env.tables == map["t" := StoredTable(["a"], [map["a" := Int(1)]])]
    ensures AllSchemas(env, [Stored("t", "")]) == Done(map["t" := Schema("t", "t", ["a"])])
    ensures FromRowsOf(env, [Stored("t", "")], schemas) == Done([map["t" := map["a" := Int(1)]]])
  {
    var from := [Stored("t", "")];
    assert from[..0] == [] && KeyOf("t", "") == "t";
    assert StoredSchemas("t", "", ["a"]) == map["t" := Schema("t", "t", ["a"])];
    assert Tagged("t", [map["a" := Int(1)]]) == [map["t" := map["a" := Int(1)]]];
    assert SourceSchemas(env, from[0]) == Done(map["t" := Schema("t", "t", ["a"])]);
    assert map[] + map["t" := Schema("t", "t", ["a"])] == map["t" := Schema("t", "t", ["a"])];
    assert FoldedRows(env, from[..0], schemas) == Done([]);
    assert SourceRows(env, from[0], schemas) == Done([map["t" := map["a" := Int(1)]]]);
  }

  /** The one row of t, beside the outer row, in the filter and in the result. */
  lemma {:induction false} OnesKept(env: Env, outer: CombinedRow, schemas: Schemas, names: multiset<string>)
    ensures var merged := Merge(map["t" := map["a" := Int(1)]], outer);
            Filtered(env, OnesOfT().filter, [map["t" := map["a" := Int(1)]]], outer, schemas, names) ==
            Extend(Done([]), Holds(env, OnesOfT().filter.value, merged, schemas, names), merged)
  {
    var rows: seq<CombinedRow> := [map["t" := map["a" := Int(1)]]];
    assert rows[..0] == [];
    assert Filtered(env, OnesOfT().filter, rows[..0], outer, schemas, names) == Done([]);
  }

  lemma {:induction false} OnesProjected(env: Env, row: CombinedRow, schemas: Schemas, names: multiset<string>)
    requires Value(env, Column("t", "a"), row, schemas, names) == Done(Int(1))
    ensures Project(env, OnesOfT().items, [row], schemas, names) == Done([map["a" := Int(1)]])
    ensures Project(env, OnesOfT().items, [], schemas, names) == Done([])
  {
    var items := OnesOfT().items;
    assert items[..0] == [] && [row][..0] == [];
    var before := ProjectRow(env, items[..0], row, schemas, names);
    assert before == Done(map[]);
    assert ProjectRow(env, items, row, schemas, names) == Beside(before, Labelled("a", Done(Int(1))));
    assert map[] + map["a" := Int(1)] == map["a" := Int(1)];
    var none := Project(env, items, [row][..0], schemas, names);
    assert none == Done([]);
    var result: ResultRow := map["a" := Int(1)];
    Seqs.Empty([result]);
    assert Project(env, items, [row], schemas, names) == Appended(none, Done(result));
  }

  lemma {:induction false} OnesHold(env: Env, n: int, schemas: Schemas, names: multiset<string>)
    requires schemas == map["t" := Schema("t", "t", ["a"])]
    ensures var row := map["t" := map["a" := Int(n)]];
      && Value(env, Column("t", "a"), row, schemas, names) == Done(Int(n))
      && Holds(env, OnesOfT().filter.value, row, schemas, names) == env.compare(Equal, Int(n), Int(1))
  {
  }

  /** Run on its own the query has the row of t. */
  lemma {:induction false} OnesAlone(env: Env)
    requires env.tables == map["t" := StoredTable(["a"], [map["a" := Int(1)]])]
    requires env.compare(Equal, Int(1), Int(1)) == Done(true)
    ensures Query(env, OnesOfT()) == Done([map["a" := Int(1)]])
  {
    var s, schemas := OnesOfT(), map["t" := Schema("t", "t", ["a"])];
    var own: CombinedRow := map["t" := map["a" := Int(1)]];
    var names := multiset(Names(s.from));
    OnesFrom(env, schemas);
    OnesKept(env, map[], schemas, names);
    OnesHold(env, 1, schemas, names);
    OnesProjected(env, own, schemas, names);
    assert Merge(own, map[]) == own;
    Seqs.Empty([own]);
    var kept := Filtered(env, s.filter, [own], map[], schemas, names);
    assert kept == Done([own]);
    assert Query(env, s) == Selected(env, s.items, s.order, s.limit, kept, schemas, names);
  }

  lemma {:induction false} OnesDropped(env: Env, schemas: Schemas, names: multiset<string>)
    requires schemas == map["t" := Schema("t", "t", ["a"])] && env.compare(Equal, Int(2), Int(1)) == Done(false)
    ensures var own: CombinedRow, outer: CombinedRow := map["t" := map["a" := Int(1)]], map["t" := map["a" := Int(2)]];
      Filtered(env, OnesOfT().filter, [own], outer, schemas, names) == Done([])
  {
    var own: CombinedRow, outer: CombinedRow := map["t" := map["a" := Int(1)]], map["t" := map["a" := Int(2)]];
    OnesKept(env, outer, schemas, names);
    OnesHold(env, 2, schemas, names);
    assert Merge(own, outer) == outer;
  }

  /** Beside an outer row of t it has none. */
  lemma {:induction false} OnesInside(env: Env)
    requires env.tables == map["t" := StoredTable(["a"], [map["a" := Int(1)]])]
    requires env.compare(Equal, Int(2), Int(1)) == Done(false)
    ensures Subquery(env, OnesOfT(), map["t" := map["a" := Int(2)]], map["t" := Schema("t", "t", ["a"])]) == Done([])
  {
    var s, schemas := OnesOfT(), map["t" := Schema("t", "t", ["a"])];
    var own: CombinedRow, outer: CombinedRow := map["t" := map["a" := Int(1)]], map["t" := map["a" := Int(2)]];
    var names := multiset(Names(s.from));
    OnesFrom(env, schemas);
    OnesDropped(env, schemas, names);
    EffectiveSame(schemas, SelectRefs(s));
    SubqueryIs(env, s, outer, schemas, schemas, [own]);
  }

  lemma {:induction false} EffectiveSame(schemas: Schemas, refs: set<string>)
    ensures Effective(schemas, schemas, refs) == schemas
  {
  }

  lemma {:induction false} SubqueryIs(
    env: Env, s: Select, outer: CombinedRow, outerSchemas: Schemas, own: Schemas, rows: seq<CombinedRow>)
    requires AllSchemas(env, s.from) == Done(own) && FromRowsOf(env, s.from, own) == Done(rows) && !IsAggregate(s)
    ensures var schemas, names := Effective(own, outerSchemas, SelectRefs(s)), multiset(Names(s.from));
            var kept := Filtered(env, s.filter, rows, outer, schemas, names);
            kept.Done? ==>
              Subquery(env, s, outer, outerSchemas) ==
              Finished(env, s, Project(env, s.items, kept.value, schemas, names))
  {
  }

  /**
   When the outer query uses the subquery's table name, its row hides the subquery's own: the same subquery has a row on
   its own and none inside the outer query.
   */
  lemma {:induction false} SharedNameHidesTheTable(env: Env)
    requires env.tables == map["t" := StoredTable(["a"], [map["a" := Int(1)]])]
    requires env.compare(Equal, Int(1), Int(1)) == Done(true) && env.compare(Equal, Int(2), Int(1)) == Done(false)
    ensures Query(env, OnesOfT()) == Done([map["a" := Int(1)]])
    ensures Subquery(env, OnesOfT(), map["t" := map["a" := Int(2)]], map["t" := Schema("t", "t", ["a"])]) == Done([])
  {
    OnesAlone(env);
    OnesInside(env);
  }
}
