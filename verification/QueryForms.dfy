/**
 Different ways to write one query (pkg/core/query.go): JOIN ... ON against WHERE, and RIGHT JOIN against LEFT JOIN.
 */
module QueryForms {
  import opened Cells
  import opened Joins
  import opened FromClause
  import opened Identifiers
  import opened Options
  import opened Evaluator
  import S = Subqueries
  import L = QueryLaws
  import Seqs

  // ----------------------------------------- what a join's rows depend on

  /** The same rows and the same condition, whatever stands for NULLs. */
  ghost predicate SameJoin(o: Operands, o': Operands) {
    o.left == o'.left && o.right == o'.right && SameCondition(o.on, o'.on)
  }

  lemma {:induction false} SameRowPairs(o: Operands, o': Operands, i: nat, n: nat)
    requires SameJoin(o, o') && i < |o.left| && n <= |o.right|
    ensures RowPairs(o, i, n) == RowPairs(o', i, n) && RowScan(o, i, n) == RowScan(o', i, n)
  {
    if n > 0 { SameRowPairs(o, o', i, n - 1); }
  }

  lemma {:induction false} SamePairs(o: Operands, o': Operands, n: nat)
    requires SameJoin(o, o') && n <= |o.left|
    ensures Pairs(o, n) == Pairs(o', n) && Scan(o, n) == Scan(o', n)
  {
    if n > 0 {
      SamePairs(o, o', n - 1);
      SameRowPairs(o, o', n - 1, |o.right|);
    }
  }

  /** An inner join has no use for the rows of NULLs. */
  lemma {:induction false} InnerJoinRows(o: Operands, o': Operands)
    requires SameJoin(o, o')
    ensures JoinRows(o, InnerJoin) == JoinRows(o', InnerJoin)
  {
    var n := |o.left|;
    SamePairs(o, o', n);
    Seqs.Empty(Pairs(o, n));
    PairsAre(o, n);
    var xs := Pairs(o, n);
    assert JoinItems(o, InnerJoin) == xs == JoinItems(o', InnerJoin);
    forall k | 0 <= k < |xs| ensures RowOf(o, xs[k]) == RowOf(o', xs[k]) { assert xs[k] in xs; }
    assert RowsOf(o, xs) == RowsOf(o', xs);
  }

  lemma {:induction false} FilteredIsFilter(
    env: Env, e: Expr, rows: seq<CombinedRow>, schemas: Schemas, names: multiset<string>)
    ensures Filtered(env, Some(e), rows, map[], schemas, names) == FilterRows(ConditionOf(env, e, schemas, names), rows)
    decreases |rows|
  {
    if rows != [] {
      var n := |rows| - 1;
      FilteredIsFilter(env, e, rows[..n], schemas, names);
      assert Merge(rows[n], map[]) == rows[n];
    }
  }

  // ------------------------------------------------- JOIN ... ON and WHERE

  lemma {:induction false} SchemasOfOne(env: Env, s: Source)
    ensures AllSchemas(env, [s]) == SourceSchemas(env, s)
  {
    assert [s][..0] == [];
    if SourceSchemas(env, s).Done? { assert map[] + SourceSchemas(env, s).value == SourceSchemas(env, s).value; }
  }

  lemma {:induction false} SchemasOfTwo(env: Env, a: Source, b: Source, kind: JoinType, on: Option<Expr>)
    ensures AllSchemas(env, [a, b]) == AllSchemas(env, [Joined(a, b, kind, on)])
  {
    assert [a, b][..1] == [a];
    SchemasOfOne(env, a);
    SchemasOfOne(env, Joined(a, b, kind, on));
  }

  lemma {:induction false} RowsOfOne(env: Env, s: Source, schemas: Schemas)
    ensures FromRowsOf(env, [s], schemas) == SourceRows(env, s, schemas)
  {
    var none: seq<Source> := [s][..0];
    assert none == [] && FoldedRows(env, none, schemas) == Done([]);
    var rows := SourceRows(env, s, schemas);
    assert FoldedRows(env, [s], schemas) == if rows.Done? then Done(Cross([], rows.value)) else rows;
  }

  lemma {:induction false} RowsOfTwo(env: Env, a: Source, b: Source, schemas: Schemas)
    ensures FromRowsOf(env, [a, b], schemas) ==
      var x, y := SourceRows(env, a, schemas), SourceRows(env, b, schemas);
      if !x.Done? then x else if !y.Done? then y else Done(Cross(x.value, y.value))
  {
    assert [a, b][..1] == [a];
    RowsOfOne(env, a, schemas);
  }

  lemma {:induction false} NamesOfTwo(a: Source, b: Source, kind: JoinType, on: Option<Expr>)
    ensures Names([a, b]) == SourceNames(a) + SourceNames(b) == Names([Joined(a, b, kind, on)])
  {
    var join := Joined(a, b, kind, on);
    assert [a, b][..1] == [a] && [a][..0] == [] && [join][..0] == [];
    assert Names([a]) == [] + SourceNames(a) == SourceNames(a);
    assert Names([join]) == [] + SourceNames(join) == SourceNames(join);
  }

  /** The query block with another FROM list and filter. */
  function Over(s: Select, from: seq<Source>, filter: Option<Expr>): Select {
    s.(from := from, filter := filter)
  }

  /** Both tables have rows, or neither has, or the condition is false of every row of the only one that has. */
  ghost predicate TablesFit(env: Env, a: Source, b: Source, on: Expr, schemas: Schemas) {
    var x, y, names := SourceRows(env, a, schemas), SourceRows(env, b, schemas), multiset(Names([a, b]));
    x.Done? && y.Done? ==>
      || (x.value == [] <==> y.value == [])
      || forall row :: row in x.value + y.value ==> Holds(env, on, row, schemas, names) == Done(false)
  }

  /** The rows of a JOIN are those that WHERE keeps of the FROM list if and only if the tables fit. */
  lemma {:induction false} JoinRowsAreFiltered(env: Env, a: Source, b: Source, on: Expr, schemas: Schemas)
    requires SourceNames(a) != [] && SourceNames(b) != []
    ensures SourceRows(env, Joined(a, b, InnerJoin, Some(on)), schemas) == KeptRows(env, [a, b], Some(on), schemas)
       <==> TablesFit(env, a, b, on, schemas)
  {
    var lt, rt := SourceNames(a), SourceNames(b);
    var x, y := SourceRows(env, a, schemas), SourceRows(env, b, schemas);
    RowsOfTwo(env, a, b, schemas);
    NamesOfTwo(a, b, InnerJoin, Some(on));
    JoinedRowsAre(env, a, b, InnerJoin, on, schemas);
    if x.Done? && y.Done? { RowsFit(env, x.value, y.value, on, lt, rt, schemas); }
  }

  lemma {:induction false} RowsFit(
    env: Env, x: seq<CombinedRow>, y: seq<CombinedRow>, on: Expr, lt: seq<string>, rt: seq<string>, schemas: Schemas)
    ensures var names := multiset(lt + rt);
      JoinRows(JoinOperands(x, y, ConditionOf(env, on, schemas, names), lt, rt, schemas), InnerJoin)
      == Filtered(env, Some(on), Cross(x, y), map[], schemas, names)
      <==> (x == [] <==> y == []) || forall row :: row in x + y ==> Holds(env, on, row, schemas, names) == Done(false)
  {
    var condition := ConditionOf(env, on, schemas, multiset(lt + rt));
    FilteredIsFilter(env, on, Cross(x, y), schemas, multiset(lt + rt));
    JoinOnVersusWhere(x, y, condition);
    InnerJoinRows(JoinOperands(x, y, condition, lt, rt, schemas), Plain(x, y, condition));
    assert forall row :: Test(condition, row) == Holds(env, on, row, schemas, multiset(lt + rt));
  }

  /** What a query makes of the rows its FROM list and WHERE clause leave. */
  ghost function Finish(
    env: Env, s: Select, kept: Outcome<seq<CombinedRow>>, schemas: Schemas, names: multiset<string>)
    : Outcome<seq<ResultRow>>
  {
    if !IsAggregate(s) then Selected(env, s.items, s.order, s.limit, kept, schemas, names)
    else if !kept.Done? then kept.Rethrow()
    else Finished(env, s, env.aggregate(s.items, s.grouping, kept.value, schemas, names))
  }

  /** The rows the FROM list and the WHERE clause leave. */
  ghost function KeptRows(
    env: Env, from: seq<Source>, filter: Option<Expr>, schemas: Schemas): Outcome<seq<CombinedRow>> {
    var rows := FromRowsOf(env, from, schemas);
    if rows.Done? then Filtered(env, filter, rows.value, map[], schemas, multiset(Names(from))) else rows
  }

  lemma {:induction false} QueryFinishes(env: Env, s: Select, from: seq<Source>, filter: Option<Expr>)
    ensures var schemas := AllSchemas(env, from);
      Query(env, Over(s, from, filter)) ==
        if !schemas.Done? then schemas.Rethrow()
        else Finish(env, s, KeptRows(env, from, filter, schemas.value), schemas.value, multiset(Names(from)))
  {
    var t := Over(s, from, filter);
    assert IsAggregate(t) <==> IsAggregate(s);
  }

  /** Two blocks over the same names that keep the same rows are the same query, whatever they select. */
  lemma {:induction false} SameKept(
    env: Env, s: Select, from: seq<Source>, filter: Option<Expr>, from': seq<Source>, filter': Option<Expr>)
    requires AllSchemas(env, from) == AllSchemas(env, from') && Names(from) == Names(from')
    requires var schemas := AllSchemas(env, from);
      schemas.Done? ==> KeptRows(env, from, filter, schemas.value) == KeptRows(env, from', filter', schemas.value)
    ensures Query(env, Over(s, from, filter)) == Query(env, Over(s, from', filter'))
  {
    QueryFinishes(env, s, from, filter);
    QueryFinishes(env, s, from', filter');
  }

  lemma {:induction false} AlikeKept(
    env: Env, s: Select, from: seq<Source>, filter: Option<Expr>, from': seq<Source>, filter': Option<Expr>)
    requires AllSchemas(env, from) == AllSchemas(env, from') && Names(from) == Names(from')
    requires var schemas := AllSchemas(env, from);
      schemas.Done? ==>
        AlikeOrFailed(KeptRows(env, from, filter, schemas.value), KeptRows(env, from', filter', schemas.value))
    ensures AlikeOrFailed(Query(env, Over(s, from, filter)), Query(env, Over(s, from', filter')))
  {
    QueryFinishes(env, s, from, filter);
    QueryFinishes(env, s, from', filter');
    var schemas := AllSchemas(env, from);
    if schemas.Done? {
      FinishAlike(env, s, KeptRows(env, from, filter, schemas.value), KeptRows(env, from', filter', schemas.value),
                  schemas.value, multiset(Names(from)));
    }
  }

  lemma {:induction false} FinishAlike(
    env: Env, s: Select, kept: Outcome<seq<CombinedRow>>, kept': Outcome<seq<CombinedRow>>, schemas: Schemas,
    names: multiset<string>)
    requires AlikeOrFailed(kept, kept')
    ensures AlikeOrFailed(Finish(env, s, kept, schemas, names), Finish(env, s, kept', schemas, names))
  {
  }

  /**
   SELECT ... FROM a JOIN b ON c and SELECT ... FROM a, b WHERE c are the same query, with or without aggregates,
   GROUP BY, ORDER BY and LIMIT, when the tables fit: the same rows in the same order, or the same failure.
   */
  lemma {:induction false} JoinOnIsWhere(env: Env, s: Select, a: Source, b: Source, on: Expr)
    requires SourceNames(a) != [] && SourceNames(b) != []
    requires AllSchemas(env, [a, b]).Done? ==> TablesFit(env, a, b, on, AllSchemas(env, [a, b]).value)
    ensures Query(env, Over(s, [Joined(a, b, InnerJoin, Some(on))], None)) == Query(env, Over(s, [a, b], Some(on)))
  {
    var join := Joined(a, b, InnerJoin, Some(on));
    SchemasOfTwo(env, a, b, InnerJoin, Some(on));
    NamesOfTwo(a, b, InnerJoin, Some(on));
    if AllSchemas(env, [a, b]).Done? { JoinKeepsFiltered(env, a, b, on, None, AllSchemas(env, [a, b]).value); }
    SameKept(env, s, [join], None, [a, b], Some(on));
  }

  /** The rows of a join are those of the FROM list that the condition keeps; a WHERE clause works on top of them. */
  lemma {:induction false} JoinKeepsFiltered(
    env: Env, a: Source, b: Source, on: Expr, filter: Option<Expr>, schemas: Schemas)
    requires SourceNames(a) != [] && SourceNames(b) != [] && TablesFit(env, a, b, on, schemas)
    ensures var kept, names := KeptRows(env, [a, b], Some(on), schemas), multiset(Names([a, b]));
      KeptRows(env, [Joined(a, b, InnerJoin, Some(on))], filter, schemas) ==
        if kept.Done? then Filtered(env, filter, kept.value, map[], schemas, names) else kept
  {
    var join := Joined(a, b, InnerJoin, Some(on));
    RowsOfOne(env, join, schemas);
    JoinRowsAreFiltered(env, a, b, on, schemas);
    NamesOfTwo(a, b, InnerJoin, Some(on));
  }

  /** Filtering by `c` and then by `d`, one more row. */
  lemma {:induction false} TwiceStep(
    first: Outcome<seq<CombinedRow>>, second: Outcome<seq<CombinedRow>>, both: Outcome<seq<CombinedRow>>,
    c: Outcome<bool>, d: Outcome<bool>, row: CombinedRow)
    requires AlikeOrFailed(if first.Done? then second else first, both)
    ensures var first' := Extend(first, c, row);
      var second' := if first'.Done? && c == Done(true) then Extend(second, d, row) else second;
      AlikeOrFailed(if first'.Done? then second' else first', Extend(both, AndThen(c, d), row))
  {
  }

  /** The rows of the first filter that the second keeps. */
  ghost function Twice(
    env: Env, d: Expr, first: Outcome<seq<CombinedRow>>, schemas: Schemas, names: multiset<string>)
    : Outcome<seq<CombinedRow>>
  {
    if first.Done? then Filtered(env, Some(d), first.value, map[], schemas, names) else first
  }

  lemma {:induction false} TwiceSnoc(
    env: Env, d: Expr, first: Outcome<seq<CombinedRow>>, c: Outcome<bool>, row: CombinedRow, schemas: Schemas,
    names: multiset<string>)
    ensures var first' := Extend(first, c, row);
      var before := Twice(env, d, first, schemas, names);
      first'.Done? ==>
        Twice(env, d, first', schemas, names) ==
        if c == Done(true) then Extend(before, Holds(env, d, row, schemas, names), row) else before
  {
    if first.Done? { S.FilteredSnoc(env, Some(d), first.value, row, schemas, names); }
  }

  /** Filtering by `c` and then by `d` is filtering by `c AND d`, but for which failure comes first. */
  lemma {:induction false} FilteredTwice(
    env: Env, c: Expr, d: Expr, rows: seq<CombinedRow>, schemas: Schemas, names: multiset<string>)
    ensures AlikeOrFailed(Twice(env, d, Filtered(env, Some(c), rows, map[], schemas, names), schemas, names),
                          Filtered(env, Some(And(c, d)), rows, map[], schemas, names))
    decreases |rows|
  {
    if rows != [] {
      var init, last := rows[..|rows| - 1], rows[|rows| - 1];
      assert rows == init + [last];
      FilteredTwice(env, c, d, init, schemas, names);
      S.FilteredSnoc(env, Some(c), init, last, schemas, names);
      S.FilteredSnoc(env, Some(And(c, d)), init, last, schemas, names);
      var first, hit := Filtered(env, Some(c), init, map[], schemas, names), Holds(env, c, last, schemas, names);
      TwiceSnoc(env, d, first, hit, last, schemas, names);
      TwiceStep(first, Twice(env, d, first, schemas, names),
                Filtered(env, Some(And(c, d)), init, map[], schemas, names), hit, Holds(env, d, last, schemas, names),
                last);
    }
  }

  /** Both succeed with the same rows, or both fail. */
  predicate AlikeOrFailed<T(==)>(x: Outcome<T>, y: Outcome<T>) { (x.Done? <==> y.Done?) && (x.Done? ==> x == y) }

  /**
   FROM a JOIN b ON c WHERE d and FROM a, b WHERE c AND d keep the same rows, or both fail, under the same condition.
   */
  lemma {:induction false} JoinOnAndWhere(env: Env, s: Select, a: Source, b: Source, on: Expr, d: Expr)
    requires SourceNames(a) != [] && SourceNames(b) != []
    requires AllSchemas(env, [a, b]).Done? ==> TablesFit(env, a, b, on, AllSchemas(env, [a, b]).value)
    ensures AlikeOrFailed(Query(env, Over(s, [Joined(a, b, InnerJoin, Some(on))], Some(d))),
                          Query(env, Over(s, [a, b], Some(And(on, d)))))
  {
    var join := Joined(a, b, InnerJoin, Some(on));
    SchemasOfTwo(env, a, b, InnerJoin, Some(on));
    NamesOfTwo(a, b, InnerJoin, Some(on));
    if AllSchemas(env, [a, b]).Done? { KeptAlike(env, a, b, on, d, AllSchemas(env, [a, b]).value); }
    AlikeKept(env, s, [join], Some(d), [a, b], Some(And(on, d)));
  }

  lemma {:induction false} KeptAlike(env: Env, a: Source, b: Source, on: Expr, d: Expr, schemas: Schemas)
    requires SourceNames(a) != [] && SourceNames(b) != [] && TablesFit(env, a, b, on, schemas)
    ensures AlikeOrFailed(KeptRows(env, [Joined(a, b, InnerJoin, Some(on))], Some(d), schemas),
                          KeptRows(env, [a, b], Some(And(on, d)), schemas))
  {
    JoinKeepsFiltered(env, a, b, on, Some(d), schemas);
    var rows := FromRowsOf(env, [a, b], schemas);
    if rows.Done? { FilteredTwice(env, on, d, rows.value, schemas, multiset(Names([a, b]))); }
  }

  // --------------------------------------------- RIGHT JOIN and LEFT JOIN

  ghost predicate Within(rows: seq<CombinedRow>, ts: set<string>) {
    forall k :: 0 <= k < |rows| ==> rows[k].Keys <= ts
  }

  lemma {:induction false} JoinedWithin(o: Operands, xs: seq<Joins.Item>, lts: set<string>, rts: set<string>)
    requires Within(o.left, lts) && Within(o.right, rts) && o.leftNulls.Keys <= lts && o.rightNulls.Keys <= rts
    ensures Within(RowsOf(o, xs), lts + rts)
  {
  }

  lemma {:induction false} JoinRowsWithin(o: Operands, kind: JoinType, lts: set<string>, rts: set<string>)
    requires Within(o.left, lts) && Within(o.right, rts) && o.leftNulls.Keys <= lts && o.rightNulls.Keys <= rts
    ensures JoinRows(o, kind).Done? ==> Within(JoinRows(o, kind).value, lts + rts)
  {
    JoinedWithin(o, JoinItems(o, kind), lts, rts);
  }

  lemma {:induction false} CrossWithin(
    left: seq<CombinedRow>, right: seq<CombinedRow>, lts: set<string>, rts: set<string>)
    requires Within(left, lts) && Within(right, rts)
    ensures Within(Cross(left, right), lts + rts)
  {
    var o := Plain(left, right, Always);
    JoinedWithin(o, Pairs(o, |left|), lts, rts);
  }

  /** The rows of a FROM item carry only the names it brings into scope. */
  lemma {:induction false} SourceRowsWithin(env: Env, s: Source, schemas: Schemas)
    ensures SourceRows(env, s, schemas).Done? ==> Within(SourceRows(env, s, schemas).value, S.Tables(s))
    decreases s
  {
    match s
    case Joined(l, r, kind, on) =>
      SourceRowsWithin(env, l, schemas);
      SourceRowsWithin(env, r, schemas);
      S.SourceSchemasAreNamed(env, l);
      S.SourceSchemasAreNamed(env, r);
      var lt, rt := SourceNames(l), SourceNames(r);
      if lt != [] && rt != [] {
        JoinAllWithin(SourceRows(env, l, schemas), SourceRows(env, r, schemas), kind,
                      JoinCondition(env, kind, on, lt, rt, schemas), lt, rt, schemas, S.Tables(l), S.Tables(r));
      }
    case _ =>
  }

  lemma {:induction false} JoinAllWithin(
    x: Outcome<seq<CombinedRow>>, y: Outcome<seq<CombinedRow>>, kind: JoinType, on: Option<Condition>, lt: seq<string>,
    rt: seq<string>, schemas: Schemas, lts: set<string>, rts: set<string>)
    requires (x.Done? ==> Within(x.value, lts)) && (y.Done? ==> Within(y.value, rts))
    requires (forall t :: t in lt ==> t in lts) && (forall t :: t in rt ==> t in rts)
    ensures var r := JoinAll(x, y, kind, on, lt, rt, schemas); r.Done? ==> Within(r.value, lts + rts)
  {
    if x.Done? && y.Done? {
      CrossWithin(x.value, y.value, lts, rts);
      JoinRowsWithin(JoinOperands(x.value, y.value, if on.Some? then on.value else Always, lt, rt, schemas), kind, lts,
                     rts);
    }
  }

  lemma {:induction false} OperandsApart(env: Env, a: Source, b: Source, on: Condition, schemas: Schemas)
    requires S.Tables(a) !! S.Tables(b)
    requires SourceRows(env, a, schemas).Done? && SourceRows(env, b, schemas).Done?
    ensures var x, y := SourceRows(env, a, schemas).value, SourceRows(env, b, schemas).value;
      Joins.Apart(JoinOperands(x, y, on, SourceNames(a), SourceNames(b), schemas))
  {
    SourceRowsWithin(env, a, schemas);
    SourceRowsWithin(env, b, schemas);
    S.SourceSchemasAreNamed(env, a);
    S.SourceSchemasAreNamed(env, b);
  }

  /** The schemas of a join do not depend on which side is which. */
  lemma {:induction false} FlippedSchemas(env: Env, a: Source, b: Source, kind: JoinType, on: Option<Expr>)
    requires S.Tables(a) !! S.Tables(b)
    ensures var x := SourceSchemas(env, Joined(a, b, kind, on));
            var y := SourceSchemas(env, Joined(b, a, FlipType(kind), on));
            (x.Done? <==> y.Done?) && (x.Done? ==> x == y)
  {
    S.SourceSchemasAreNamed(env, a);
    S.SourceSchemasAreNamed(env, b);
    var x, y := SourceSchemas(env, a), SourceSchemas(env, b);
    if x.Done? && y.Done? { assert x.value + y.value == y.value + x.value; }
  }

  /**
   Over tables with different names, a RIGHT JOIN b ON c gives the rows of b LEFT JOIN a ON c, each as often, and
   likewise LEFT against RIGHT, and INNER and FULL against themselves. The condition resolves its columns over both
   tables, so this needs resolution not to depend on their order.
   */
  lemma {:induction false} RightJoinIsLeftJoin(
    env: Env, a: Source, b: Source, kind: JoinType, on: Expr, schemas: Schemas)
    requires S.Tables(a) !! S.Tables(b)
    ensures var x, y := SourceRows(env, Joined(a, b, kind, Some(on)), schemas),
                        SourceRows(env, Joined(b, a, FlipType(kind), Some(on)), schemas);
            (x.Done? <==> y.Done?) && (x.Done? ==> multiset(x.value) == multiset(y.value))
  {
    if SourceNames(a) != [] && SourceNames(b) != [] {
      JoinedRowsAre(env, a, b, kind, on, schemas);
      JoinedRowsAre(env, b, a, FlipType(kind), on, schemas);
      FlippedSources(env, a, b, kind, on, schemas);
    }
  }

  lemma {:induction false} FlippedSources(
    env: Env, a: Source, b: Source, kind: JoinType, on: Expr, schemas: Schemas)
    requires S.Tables(a) !! S.Tables(b)
    ensures var x, y, lt, rt := SourceRows(env, a, schemas), SourceRows(env, b, schemas), SourceNames(a),
                                SourceNames(b);
            var r := JoinAll(x, y, kind, Some(ConditionOf(env, on, schemas, multiset(lt + rt))), lt, rt, schemas);
            var r' := JoinAll(y, x, FlipType(kind), Some(ConditionOf(env, on, schemas, multiset(rt + lt))), rt, lt,
                              schemas);
            (r.Done? <==> r'.Done?) && (r.Done? ==> multiset(r.value) == multiset(r'.value))
  {
    var x, y, lt, rt := SourceRows(env, a, schemas), SourceRows(env, b, schemas), SourceNames(a), SourceNames(b);
    assert multiset(lt + rt) == multiset(rt + lt);
    var c := ConditionOf(env, on, schemas, multiset(lt + rt));
    if x.Done? && y.Done? { OperandsApart(env, a, b, c, schemas); }
    JoinAllFlipped(x, y, kind, c, lt, rt, schemas);
  }

  lemma {:induction false} JoinedRowsAre(env: Env, a: Source, b: Source, kind: JoinType, on: Expr, schemas: Schemas)
    requires SourceNames(a) != [] && SourceNames(b) != []
    ensures var lt, rt := SourceNames(a), SourceNames(b);
            SourceRows(env, Joined(a, b, kind, Some(on)), schemas) ==
            JoinAll(SourceRows(env, a, schemas), SourceRows(env, b, schemas), kind,
                    Some(ConditionOf(env, on, schemas, multiset(lt + rt))), lt, rt, schemas)
  {
  }

  lemma {:induction false} JoinAllFlipped(
    x: Outcome<seq<CombinedRow>>, y: Outcome<seq<CombinedRow>>, kind: JoinType, c: Condition, lt: seq<string>,
    rt: seq<string>, schemas: Schemas)
    requires x.Done? && y.Done? ==> Joins.Apart(JoinOperands(x.value, y.value, c, lt, rt, schemas))
    ensures var r := JoinAll(x, y, kind, Some(c), lt, rt, schemas);
            var r' := JoinAll(y, x, FlipType(kind), Some(c), rt, lt, schemas);
            (r.Done? <==> r'.Done?) && (r.Done? ==> multiset(r.value) == multiset(r'.value))
  {
    if x.Done? && y.Done? { FlippedJoin(JoinOperands(x.value, y.value, c, lt, rt, schemas), c, kind); }
  }

  // ------------------------------------------------------- the natural join

  /** l.c1 = r.c1 AND ... AND l.cn = r.cn */
  function AllEqual(lt: string, rt: string, common: seq<string>): Expr
    requires common != []
  {
    var n := |common| - 1;
    var last := Compare(Equal, Column(lt, common[n]), Column(rt, common[n]));
    if n == 0 then last else And(AllEqual(lt, rt, common[..n]), last)
  }

  lemma {:induction false} AllEqualHolds(
    env: Env, lt: string, rt: string, common: seq<string>, row: CombinedRow, schemas: Schemas, names: multiset<string>)
    requires common != []
    ensures NaturallyJoined(env, lt, rt, common, row, schemas, names)
         == Holds(env, AllEqual(lt, rt, common), row, schemas, names)
    decreases |common|
  {
    var n := |common| - 1;
    L.NaturalStep(env, lt, rt, common, row, schemas, names);
    if n > 0 {
      AllEqualHolds(env, lt, rt, common[..n], row, schemas, names);
    } else {
      assert common[..n] == [];
    }
  }

  /** a JOIN b is a JOIN b ON the equality of all columns that the first tables of the two share. */
  lemma {:induction false} NaturalJoinIsOn(env: Env, a: Source, b: Source, schemas: Schemas, common: seq<string>)
    requires SourceNames(a) != [] && SourceNames(b) != [] && common != []
    requires common == CommonColumns(ColumnsOf(schemas, SourceNames(a)[0]), ColumnsOf(schemas, SourceNames(b)[0]))
    ensures SourceRows(env, Joined(a, b, InnerJoin, None), schemas) ==
            SourceRows(env, Joined(a, b, InnerJoin, Some(AllEqual(SourceNames(a)[0], SourceNames(b)[0], common))),
                       schemas)
  {
    var lt, rt := SourceNames(a), SourceNames(b);
    var names, on := multiset(lt + rt), AllEqual(lt[0], rt[0], common);
    var x, y := SourceRows(env, a, schemas), SourceRows(env, b, schemas);
    JoinedRowsAre(env, a, b, InnerJoin, on, schemas);
    var natural, written := JoinCondition(env, InnerJoin, None, lt, rt, schemas).value,
                            ConditionOf(env, on, schemas, names);
    forall row ensures Test(natural, row) == Test(written, row) {
      AllEqualHolds(env, lt[0], rt[0], common, row, schemas, names);
    }
    if x.Done? && y.Done? {
      InnerJoinRows(JoinOperands(x.value, y.value, natural, lt, rt, schemas),
                    JoinOperands(x.value, y.value, written, lt, rt, schemas));
    }
  }
}
