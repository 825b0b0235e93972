/**
 What an outer join puts beside a row that matched nothing (pkg/core/query.go): for every stored table of the other side
 a row whose columns are those of its schema, all NULL.
 */
module OuterJoins {
  import opened Cells
  import opened Joins
  import opened Identifiers
  import opened Options
  import opened Evaluator
  import S = Subqueries
  import Q = QueryForms
  import L = QueryLaws
  import Seqs

  /** The rows agree on these tables. */
  predicate Agree(x: CombinedRow, y: CombinedRow, tables: set<string>) {
    forall t :: t in tables ==> (t in x <==> t in y) && (t in x ==> x[t] == y[t])
  }

  /** Table `t` has in the row exactly the columns of its schema, and all are NULL. */
  ghost predicate AllNull(row: CombinedRow, t: string, schemas: Schemas) {
    && t in row && t in schemas
    && (forall c :: c in row[t] <==> c in schemas[t].columns)
    && forall c :: c in row[t] ==> row[t][c] == Null
  }

  /** Of the tables of `side` the row has the stored ones that are in scope, all NULL, and no other. */
  ghost predicate Padding(row: CombinedRow, side: Source, schemas: Schemas) {
    forall t :: t in S.Tables(side) ==>
      if t in SourceNames(side) && t in schemas then AllNull(row, t, schemas) else t !in row
  }

  /** A left row beside the padding of the right side, or a right row beside the padding of the left side. */
  ghost predicate Padded(row: CombinedRow, own: CombinedRow, side: Source, other: Source, schemas: Schemas) {
    Agree(row, own, S.Tables(side)) && Padding(row, other, schemas)
  }

  /** The two rows side by side meet the condition. */
  ghost predicate Meets(
    env: Env, on: Expr, l: CombinedRow, r: CombinedRow, schemas: Schemas, names: multiset<string>) {
    Holds(env, on, Merge(l, r), schemas, names) == Done(true)
  }

  ghost predicate MeetsSome(
    env: Env, on: Expr, l: CombinedRow, right: seq<CombinedRow>, schemas: Schemas, names: multiset<string>) {
    exists j :: 0 <= j < |right| && Meets(env, on, l, right[j], schemas, names)
  }

  ghost predicate MetBySome(
    env: Env, on: Expr, left: seq<CombinedRow>, r: CombinedRow, schemas: Schemas, names: multiset<string>) {
    exists i :: 0 <= i < |left| && Meets(env, on, left[i], r, schemas, names)
  }

  /** An item of the join, told by the condition alone. */
  ghost predicate Expected(
    env: Env, x: seq<CombinedRow>, y: seq<CombinedRow>, kind: JoinType, on: Expr, schemas: Schemas,
    names: multiset<string>, item: Joins.Item) {
    match item
    case Pair(i, j) => i < |x| && j < |y| && Meets(env, on, x[i], y[j], schemas, names)
    case LeftOnly(i) =>
      (kind.LeftJoin? || kind.FullJoin?) && i < |x| && !MeetsSome(env, on, x[i], y, schemas, names)
    case RightOnly(j) =>
      (kind.RightJoin? || kind.FullJoin?) && j < |y| && !MetBySome(env, on, x, y[j], schemas, names)
  }

  /** The row of an item: both rows of a pair, or the one row there is and NULLs for the other side. */
  ghost predicate Pictures(
    row: CombinedRow, a: Source, b: Source, x: seq<CombinedRow>, y: seq<CombinedRow>, schemas: Schemas,
    item: Joins.Item) {
    && row.Keys <= S.Tables(a) + S.Tables(b)
    && match item
       case Pair(i, j) =>
         i < |x| && j < |y| && Agree(row, x[i], S.Tables(a)) && Agree(row, y[j], S.Tables(b))
       case LeftOnly(i) => i < |x| && Padded(row, x[i], a, b, schemas)
       case RightOnly(j) => j < |y| && Padded(row, y[j], b, a, schemas)
  }

  /** The items are all expected ones, each once, in the order of the join. */
  ghost predicate Lists(
    env: Env, x: seq<CombinedRow>, y: seq<CombinedRow>, kind: JoinType, on: Expr, schemas: Schemas,
    names: multiset<string>, xs: seq<Joins.Item>) {
    && InOrder(xs) && Seqs.Distinct(xs)
    && forall item :: item in xs <==> Expected(env, x, y, kind, on, schemas, names, item)
  }

  ghost predicate PicturesAll(
    rows: seq<CombinedRow>, a: Source, b: Source, x: seq<CombinedRow>, y: seq<CombinedRow>, schemas: Schemas,
    xs: seq<Joins.Item>) {
    |rows| == |xs| && forall k :: 0 <= k < |xs| ==> Pictures(rows[k], a, b, x, y, schemas, xs[k])
  }

  lemma {:induction false} NullRowIs(names: seq<string>, schemas: Schemas, t: string)
    ensures var nulls := NullRows(names, schemas);
      if t in names && t in schemas then AllNull(nulls, t, schemas) else t !in nulls
  {
  }

  /** `full` has the row's tables, and for the others what `nulls` has. */
  lemma {:induction false} PaddingIs(full: CombinedRow, row: CombinedRow, side: Source, schemas: Schemas)
    requires row.Keys !! S.Tables(side)
    requires var nulls := NullRows(SourceNames(side), schemas); full == nulls + row || full == row + nulls
    ensures Padding(full, side, schemas)
  {
    var names, nulls := SourceNames(side), NullRows(SourceNames(side), schemas);
    forall t | t in S.Tables(side)
      ensures if t in names && t in schemas then AllNull(full, t, schemas) else t !in full
    {
      NullRowIs(names, schemas, t);
      assert (t in full <==> t in nulls) && (t in nulls ==> full[t] == nulls[t]);
    }
  }

  lemma {:induction false} PairPictures(
    a: Source, b: Source, x: seq<CombinedRow>, y: seq<CombinedRow>, schemas: Schemas, i: nat, j: nat)
    requires S.Tables(a) !! S.Tables(b) && i < |x| && j < |y|
    requires x[i].Keys <= S.Tables(a) && y[j].Keys <= S.Tables(b)
    ensures Pictures(Merge(x[i], y[j]), a, b, x, y, schemas, Pair(i, j))
  {
  }

  lemma {:induction false} LeftPictures(
    env: Env, a: Source, b: Source, x: seq<CombinedRow>, y: seq<CombinedRow>, schemas: Schemas, i: nat)
    requires S.Tables(a) !! S.Tables(b) && i < |x| && x[i].Keys <= S.Tables(a)
    ensures Pictures(Merge(x[i], NullRows(SourceNames(b), schemas)), a, b, x, y, schemas, LeftOnly(i))
  {
    S.SourceSchemasAreNamed(env, b);
    PaddingIs(Merge(x[i], NullRows(SourceNames(b), schemas)), x[i], b, schemas);
  }

  lemma {:induction false} RightPictures(
    env: Env, a: Source, b: Source, x: seq<CombinedRow>, y: seq<CombinedRow>, schemas: Schemas, j: nat)
    requires S.Tables(a) !! S.Tables(b) && j < |y| && y[j].Keys <= S.Tables(b)
    ensures Pictures(Merge(NullRows(SourceNames(a), schemas), y[j]), a, b, x, y, schemas, RightOnly(j))
  {
    S.SourceSchemasAreNamed(env, a);
    PaddingIs(Merge(NullRows(SourceNames(a), schemas), y[j]), y[j], a, schemas);
  }

  lemma {:induction false} MeetsIs(
    env: Env, o: Operands, on: Expr, schemas: Schemas, names: multiset<string>, i: nat, j: nat)
    requires o.on == ConditionOf(env, on, schemas, names) && i < |o.left| && j < |o.right|
    ensures Joins.Hits(o, i, j) <==> Meets(env, on, o.left[i], o.right[j], schemas, names)
  {
  }

  lemma {:induction false} LeftExpected(
    env: Env, o: Operands, kind: JoinType, on: Expr, schemas: Schemas, names: multiset<string>, i: nat)
    requires o.on == ConditionOf(env, on, schemas, names)
    ensures Belongs(o, kind, LeftOnly(i)) <==> Expected(env, o.left, o.right, kind, on, schemas, names, LeftOnly(i))
  {
    if i < |o.left| {
      forall j: nat | j < |o.right|
        ensures Joins.Hits(o, i, j) <==> Meets(env, on, o.left[i], o.right[j], schemas, names)
      {
        MeetsIs(env, o, on, schemas, names, i, j);
      }
    }
  }

  lemma {:induction false} RightExpected(
    env: Env, o: Operands, kind: JoinType, on: Expr, schemas: Schemas, names: multiset<string>, j: nat)
    requires o.on == ConditionOf(env, on, schemas, names)
    ensures Belongs(o, kind, RightOnly(j)) <==> Expected(env, o.left, o.right, kind, on, schemas, names, RightOnly(j))
  {
    if j < |o.right| {
      forall i: nat | i < |o.left|
        ensures Joins.Hits(o, i, j) <==> Meets(env, on, o.left[i], o.right[j], schemas, names)
      {
        MeetsIs(env, o, on, schemas, names, i, j);
      }
    }
  }

  lemma {:induction false} PairExpected(
    env: Env, o: Operands, kind: JoinType, on: Expr, schemas: Schemas, names: multiset<string>, i: nat, j: nat)
    requires o.on == ConditionOf(env, on, schemas, names)
    ensures Belongs(o, kind, Pair(i, j)) <==> Expected(env, o.left, o.right, kind, on, schemas, names, Pair(i, j))
  {
    if i < |o.left| && j < |o.right| { MeetsIs(env, o, on, schemas, names, i, j); }
  }

  lemma {:induction false} ExpectedIs(
    env: Env, o: Operands, kind: JoinType, on: Expr, schemas: Schemas, names: multiset<string>, item: Joins.Item)
    requires o.on == ConditionOf(env, on, schemas, names)
    ensures Belongs(o, kind, item) <==> Expected(env, o.left, o.right, kind, on, schemas, names, item)
  {
    match item
    case Pair(i, j) => PairExpected(env, o, kind, on, schemas, names, i, j);
    case LeftOnly(i) => LeftExpected(env, o, kind, on, schemas, names, i);
    case RightOnly(j) => RightExpected(env, o, kind, on, schemas, names, j);
  }

  /**
   The rows of a join of two FROM items, whatever they are: each pair that meets the condition, each unmatched left row
   (LEFT, FULL) beside NULLs and each unmatched right row (RIGHT, FULL) beside NULLs, each once and in that order.
   */
  lemma {:induction false} JoinMeans(
    env: Env, a: Source, b: Source, kind: JoinType, on: Expr, schemas: Schemas, x: seq<CombinedRow>,
    y: seq<CombinedRow>, rows: seq<CombinedRow>) returns (xs: seq<Joins.Item>)
    requires S.Tables(a) !! S.Tables(b)
    requires SourceRows(env, a, schemas) == Done(x) && SourceRows(env, b, schemas) == Done(y)
    requires SourceRows(env, Joined(a, b, kind, Some(on)), schemas) == Done(rows)
    ensures Lists(env, x, y, kind, on, schemas, multiset(SourceNames(a) + SourceNames(b)), xs)
    ensures PicturesAll(rows, a, b, x, y, schemas, xs)
  {
    var lt, rt := SourceNames(a), SourceNames(b);
    var names := multiset(lt + rt);
    var o := JoinOperands(x, y, ConditionOf(env, on, schemas, names), lt, rt, schemas);
    Q.JoinedRowsAre(env, a, b, kind, on, schemas);
    Q.SourceRowsWithin(env, a, schemas);
    Q.SourceRowsWithin(env, b, schemas);
    xs := JoinItems(o, kind);
    assert rows == RowsOf(o, xs);
    ListsAre(env, o, kind, on, schemas, names);
    AllPictures(env, a, b, o, kind, x, y, schemas);
  }

  lemma {:induction false} ListsAre(
    env: Env, o: Operands, kind: JoinType, on: Expr, schemas: Schemas, names: multiset<string>)
    requires o.on == ConditionOf(env, on, schemas, names)
    ensures Lists(env, o.left, o.right, kind, on, schemas, names, JoinItems(o, kind))
  {
    JoinIsExact(o, kind);
    forall item ensures Belongs(o, kind, item) <==> Expected(env, o.left, o.right, kind, on, schemas, names, item) {
      ExpectedIs(env, o, kind, on, schemas, names, item);
    }
  }

  lemma {:induction false} AllPictures(
    env: Env, a: Source, b: Source, o: Operands, kind: JoinType, x: seq<CombinedRow>, y: seq<CombinedRow>,
    schemas: Schemas)
    requires S.Tables(a) !! S.Tables(b) && Q.Within(x, S.Tables(a)) && Q.Within(y, S.Tables(b))
    requires o == JoinOperands(x, y, o.on, SourceNames(a), SourceNames(b), schemas)
    ensures PicturesAll(RowsOf(o, JoinItems(o, kind)), a, b, x, y, schemas, JoinItems(o, kind))
  {
    var xs := JoinItems(o, kind);
    JoinIsExact(o, kind);
    forall k | 0 <= k < |xs| ensures Pictures(RowsOf(o, xs)[k], a, b, x, y, schemas, xs[k]) {
      assert xs[k] in xs;
      ItemPictures(env, a, b, o, kind, xs[k], x, y, schemas);
    }
  }

  lemma {:induction false} ItemPictures(
    env: Env, a: Source, b: Source, o: Operands, kind: JoinType, item: Joins.Item, x: seq<CombinedRow>,
    y: seq<CombinedRow>, schemas: Schemas)
    requires S.Tables(a) !! S.Tables(b) && Q.Within(x, S.Tables(a)) && Q.Within(y, S.Tables(b))
    requires o == JoinOperands(x, y, o.on, SourceNames(a), SourceNames(b), schemas) && Belongs(o, kind, item)
    ensures Pictures(RowOf(o, item), a, b, x, y, schemas, item)
  {
    match item
    case Pair(i, j) => PairPictures(a, b, x, y, schemas, i, j);
    case LeftOnly(i) => LeftPictures(env, a, b, x, y, schemas, i);
    case RightOnly(j) => RightPictures(env, a, b, x, y, schemas, j);
  }

  /** The condition can be evaluated on every pair. */
  ghost predicate AllPairsTested(
    env: Env, x: seq<CombinedRow>, y: seq<CombinedRow>, on: Expr, schemas: Schemas, names: multiset<string>) {
    forall i :: 0 <= i < |x| ==> RowTested(env, x[i], y, on, schemas, names)
  }

  /** A join of two FROM items with stored tables fails exactly when its condition fails on some pair. */
  lemma {:induction false} JoinFails(
    env: Env, a: Source, b: Source, kind: JoinType, on: Expr, schemas: Schemas, x: seq<CombinedRow>,
    y: seq<CombinedRow>)
    requires SourceNames(a) != [] && SourceNames(b) != []
    requires SourceRows(env, a, schemas) == Done(x) && SourceRows(env, b, schemas) == Done(y)
    ensures SourceRows(env, Joined(a, b, kind, Some(on)), schemas).Done?
       <==> AllPairsTested(env, x, y, on, schemas, multiset(SourceNames(a) + SourceNames(b)))
  {
    var lt, rt := SourceNames(a), SourceNames(b);
    var names := multiset(lt + rt);
    Q.JoinedRowsAre(env, a, b, kind, on, schemas);
    ScanIs(env, JoinOperands(x, y, ConditionOf(env, on, schemas, names), lt, rt, schemas), on, schemas, names);
  }

  ghost predicate RowTested(
    env: Env, l: CombinedRow, y: seq<CombinedRow>, on: Expr, schemas: Schemas, names: multiset<string>) {
    forall j :: 0 <= j < |y| ==> Holds(env, on, Merge(l, y[j]), schemas, names).Done?
  }

  lemma {:induction false} RowScanIs(
    env: Env, o: Operands, on: Expr, schemas: Schemas, names: multiset<string>, i: nat)
    requires o.on == ConditionOf(env, on, schemas, names) && i < |o.left|
    ensures RowFine(o, i) <==> RowTested(env, o.left[i], o.right, on, schemas, names)
  {
    RowScanDone(o, i, |o.right|);
    var l := o.left[i];
    forall j | 0 <= j < |o.right|
      ensures Test(o.on, Merge(l, o.right[j])) == Holds(env, on, Merge(l, o.right[j]), schemas, names) {}
  }

  lemma {:induction false} ScanIs(env: Env, o: Operands, on: Expr, schemas: Schemas, names: multiset<string>)
    requires o.on == ConditionOf(env, on, schemas, names)
    ensures Evaluable(o) <==> AllPairsTested(env, o.left, o.right, on, schemas, names)
  {
    ScanDone(o, |o.left|);
    forall i: nat | i < |o.left|
      ensures RowFine(o, i) <==> RowTested(env, o.left[i], o.right, on, schemas, names)
    {
      RowScanIs(env, o, on, schemas, names, i);
    }
  }

  // -------------------------------------------------------- looking for NULL

  /** A column that a query can ask of a stored table of the FROM item. */
  ghost predicate Asks(side: Source, schemas: Schemas, t: string, c: string) {
    && t != "" && t != "result" && t in SourceNames(side) && t in S.Tables(side)
    && t in schemas && c in schemas[t].columns
  }

  /** Every column of a padded table IS NULL. */
  lemma {:induction false} PaddedIsNull(
    env: Env, row: CombinedRow, own: CombinedRow, side: Source, other: Source, schemas: Schemas, t: string, c: string,
    names: multiset<string>)
    requires Padded(row, own, side, other, schemas) && Asks(other, schemas, t, c) && "result" !in row
    ensures L.Is(env, IsNull(Column(t, c), false), row, schemas, names, true)
    ensures L.Is(env, IsNull(Column(t, c), true), row, schemas, names, false)
  {
    assert AllNull(row, t, schemas);
    L.ColumnIs(env, t, c, row, schemas, names);
    L.NullTests(env, Column(t, c), Null, row, schemas, names);
  }

  /** The column has a value in every row. */
  predicate Filled(rows: seq<CombinedRow>, t: string, c: string) {
    forall j :: 0 <= j < |rows| ==> HasValue(rows[j], t, c) && rows[j][t][c] != Null
  }

  lemma {:induction false} NullTellsUnmatched(
    env: Env, row: CombinedRow, a: Source, b: Source, x: seq<CombinedRow>, y: seq<CombinedRow>, schemas: Schemas,
    item: Joins.Item, t: string, c: string, names: multiset<string>)
    requires Pictures(row, a, b, x, y, schemas, item) && !item.RightOnly?
    requires Asks(b, schemas, t, c) && Filled(y, t, c) && "result" !in row
    ensures L.Is(env, IsNull(Column(t, c), false), row, schemas, names, item.LeftOnly?)
  {
    match item
    case LeftOnly(i) => PaddedIsNull(env, row, x[i], a, b, schemas, t, c, names);
    case Pair(_, j) =>
      assert t in row && row[t] == y[j][t];
      L.ColumnIs(env, t, c, row, schemas, names);
      L.NullTests(env, Column(t, c), y[j][t][c], row, schemas, names);
  }

  /** `un` lists, in order, the left rows without a partner. */
  ghost predicate Unmatched(
    env: Env, x: seq<CombinedRow>, y: seq<CombinedRow>, on: Expr, schemas: Schemas, names: multiset<string>,
    un: seq<nat>) {
    && L.Increasing(un)
    && forall i: nat :: i in un <==> i < |x| && !MeetsSome(env, on, x[i], y, schemas, names)
  }

  lemma {:induction false} UnmatchedAre(
    env: Env, x: seq<CombinedRow>, y: seq<CombinedRow>, on: Expr, schemas: Schemas, names: multiset<string>,
    xs: seq<Joins.Item>, at: seq<nat>) returns (un: seq<nat>)
    requires Lists(env, x, y, LeftJoin, on, schemas, names, xs) && L.Increasing(at)
    requires forall k: nat :: k in at <==> k < |xs| && xs[k].LeftOnly?
    ensures Unmatched(env, x, y, on, schemas, names, un) && |un| == |at|
    ensures forall i :: 0 <= i < |at| ==> at[i] < |xs| && xs[at[i]] == LeftOnly(un[i])
  {
    assert forall i :: 0 <= i < |at| ==> at[i] in at;
    un := seq(|at|, i requires 0 <= i < |at| => xs[at[i]].i);
    forall i: nat ensures i in un <==> i < |x| && !MeetsSome(env, on, x[i], y, schemas, names) {
      if i in un {
        var k :| 0 <= k < |un| && un[k] == i;
        assert xs[at[k]] == LeftOnly(i) && xs[at[k]] in xs;
      }
      if i < |x| && !MeetsSome(env, on, x[i], y, schemas, names) {
        assert Expected(env, x, y, LeftJoin, on, schemas, names, LeftOnly(i));
        var k: nat :| k < |xs| && xs[k] == LeftOnly(i);
        var m :| 0 <= m < |at| && at[m] == k;
        assert un[m] == i;
      }
    }
    forall i, j | 0 <= i < j < |un| ensures un[i] < un[j] {
      assert Before(xs[at[i]], xs[at[j]]);
    }
  }

  /**
   FROM a LEFT JOIN b ON ... WHERE b.c IS NULL is the anti-join: where b.c always has a value, it keeps exactly the rows
   of a that match no row of b, in their order, each beside NULLs.
   */
  lemma {:induction false} AntiJoin(
    env: Env, a: Source, b: Source, on: Expr, schemas: Schemas, x: seq<CombinedRow>, y: seq<CombinedRow>,
    rows: seq<CombinedRow>, t: string, c: string) returns (un: seq<nat>)
    requires S.Tables(a) !! S.Tables(b) && "result" !in S.Tables(a) + S.Tables(b)
    requires SourceRows(env, a, schemas) == Done(x) && SourceRows(env, b, schemas) == Done(y)
    requires SourceRows(env, Joined(a, b, LeftJoin, Some(on)), schemas) == Done(rows)
    requires Asks(b, schemas, t, c) && Filled(y, t, c)
    ensures var names := multiset(SourceNames(a) + SourceNames(b));
      var kept := Filtered(env, Some(IsNull(Column(t, c), false)), rows, map[], schemas, names);
      && Unmatched(env, x, y, on, schemas, names, un)
      && kept.Done? && |kept.value| == |un|
      && forall i :: 0 <= i < |un| ==> un[i] < |x| && Padded(kept.value[i], x[un[i]], a, b, schemas)
  {
    var names, e := multiset(SourceNames(a) + SourceNames(b)), IsNull(Column(t, c), false);
    var xs := JoinMeans(env, a, b, LeftJoin, on, schemas, x, y, rows);
    var at := NullTells(env, a, b, on, schemas, x, y, rows, xs, t, c);
    un := UnmatchedAre(env, x, y, on, schemas, names, xs, at);
    KeptArePadded(Filtered(env, Some(e), rows, map[], schemas, names).value, rows, a, b, x, y, schemas, xs, at, un);
  }

  /** The condition keeps exactly the rows without a partner. */
  lemma {:induction false} NullTells(
    env: Env, a: Source, b: Source, on: Expr, schemas: Schemas, x: seq<CombinedRow>, y: seq<CombinedRow>,
    rows: seq<CombinedRow>, xs: seq<Joins.Item>, t: string, c: string) returns (at: seq<nat>)
    requires "result" !in S.Tables(a) + S.Tables(b) && PicturesAll(rows, a, b, x, y, schemas, xs)
    requires forall item :: item in xs ==> !item.RightOnly?
    requires Asks(b, schemas, t, c) && Filled(y, t, c)
    ensures var names, e := multiset(SourceNames(a) + SourceNames(b)), IsNull(Column(t, c), false);
      && L.Increasing(at)
      && (forall k: nat :: k in at <==> k < |xs| && xs[k].LeftOnly?)
      && L.Gives(Filtered(env, Some(e), rows, map[], schemas, names), true, rows, map[], at)
  {
    var names, e := multiset(SourceNames(a) + SourceNames(b)), IsNull(Column(t, c), false);
    at := L.WhereKeeps(env, e, rows, map[], schemas, names);
    forall k: nat | k < |rows|
      ensures L.Wanted(env, e, rows, map[], schemas, names, k) <==> xs[k].LeftOnly?
      ensures L.Tested(env, e, rows, map[], schemas, names, k)
    {
      assert xs[k] in xs && Merge(rows[k], map[]) == rows[k];
      NullTellsUnmatched(env, rows[k], a, b, x, y, schemas, xs[k], t, c, names);
    }
  }

  lemma {:induction false} KeptArePadded(
    kept: seq<CombinedRow>, rows: seq<CombinedRow>, a: Source, b: Source, x: seq<CombinedRow>, y: seq<CombinedRow>,
    schemas: Schemas, xs: seq<Joins.Item>, at: seq<nat>, un: seq<nat>)
    requires PicturesAll(rows, a, b, x, y, schemas, xs) && L.RowsAt(kept, rows, map[], at) && |un| == |at|
    requires forall i :: 0 <= i < |at| ==> at[i] < |xs| && xs[at[i]] == LeftOnly(un[i])
    ensures |kept| == |un| && forall i :: 0 <= i < |un| ==> un[i] < |x| && Padded(kept[i], x[un[i]], a, b, schemas)
  {
    forall i | 0 <= i < |un| ensures un[i] < |x| && Padded(kept[i], x[un[i]], a, b, schemas) {
      assert kept[i] == Merge(rows[at[i]], map[]) == rows[at[i]];
      assert Pictures(rows[at[i]], a, b, x, y, schemas, xs[at[i]]);
    }
  }
}
