/** UNION and UNION ALL (pkg/core/query.go) over a tree of queries. */
module Unions {
  import opened Cells
  import opened Dedup
  import opened Options
  import E = Evaluator
  import Seqs

  type ResultRow = map<string, Cell>

  /** What follows a union: ORDER BY, as a function that sorts, and LIMIT. */
  datatype Tail = Tail(order: Option<seq<ResultRow> -> seq<ResultRow>>, limit: E.Limit)

  /** SELECTs under UNION (`all` false) and UNION ALL, each with a tail; UNION DISTINCT is treated like UNION ALL. */
  datatype Query = Single(result: Outcome<seq<ResultRow>>) | Union(left: Query, right: Query, all: bool, tail: Tail)

  function Finished(tail: Tail, rows: seq<ResultRow>): seq<ResultRow> {
    E.Slice(tail.limit, if tail.order.Some? then tail.order.value(rows) else rows)
  }

  /** Two results with rows must have rows of one width; only their first rows are looked at. */
  predicate Compatible(left: seq<ResultRow>, right: seq<ResultRow>) {
    left != [] && right != [] ==> |left[0]| == |right[0]|
  }

  /** What the code computes, level by level. */
  function Evaluate(key: ResultRow -> string, q: Query): Outcome<seq<ResultRow>> {
    match q
    case Single(result) => result
    case Union(l, r, all, tail) =>
      var x, y := Evaluate(key, l), Evaluate(key, r);
      if !x.Done? then x
      else if !y.Done? then y
      else if !Compatible(x.value, y.value) then Failed
      else Done(Finished(tail, if all then x.value + y.value else Keep(key, x.value + y.value)))
  }

  /** The rows of one operand that have not been seen yet. */
  method AppendNew(key: ResultRow -> string, rows: seq<ResultRow>, before: seq<ResultRow>, seenBefore: set<string>)
    returns (combined: seq<ResultRow>, seen: set<string>)
    ensures combined == before + KeepAfter(key, seenBefore, rows)
    ensures seen == seenBefore + KeySet(key, rows)
  {
    combined, seen := before, seenBefore;
    Seqs.Empty(before);
    for i := 0 to |rows|
      invariant combined == before + KeepAfter(key, seenBefore, rows[..i])
      invariant seen == seenBefore + KeySet(key, rows[..i])
    {
      Seqs.Unsnoc(rows, i);
      KeepSnoc(key, seenBefore, rows[..i], rows[i]);
      if key(rows[i]) !in seen {
        Seqs.Assoc(before, KeepAfter(key, seenBefore, rows[..i]), [rows[i]]);
        combined := combined + [rows[i]];
        seen := seen + {key(rows[i])};
      } else {
        Seqs.Empty(KeepAfter(key, seenBefore, rows[..i]));
      }
    }
    assert rows[..|rows|] == rows;
  }

  /** Both operands without repetition. */
  method Combine(
    key: ResultRow -> string, left: seq<ResultRow>, right: seq<ResultRow>) returns (combined: seq<ResultRow>)
    ensures combined == Keep(key, left + right)
  {
    var seen;
    combined, seen := AppendNew(key, left, [], {});
    combined, seen := AppendNew(key, right, combined, seen);
    KeepJoin(key, {}, left, right);
    Seqs.Empty(KeepAfter(key, {}, left));
  }

  method ExecuteUnion(key: ResultRow -> string, q: Query) returns (r: Outcome<seq<ResultRow>>)
    ensures r == Evaluate(key, q)
    decreases q
  {
    if q.Single? { return q.result; }
    var x := ExecuteUnion(key, q.left);
    if !x.Done? { return x; }
    var y := ExecuteUnion(key, q.right);
    if !y.Done? { return y; }
    if x.value != [] && y.value != [] && |x.value[0]| != |y.value[0]| { return Failed; }
    var combined := x.value + y.value;
    if !q.all { combined := Combine(key, x.value, y.value); }
    if q.tail.order.Some? { combined := q.tail.order.value(combined); }
    combined := E.Slice(q.tail.limit, combined);
    r := Done(combined);
  }

  // ------------------------------------------------------------ the theorem

  /** All rows of all SELECTs, left to right. */
  function Leaves(q: Query): seq<ResultRow> {
    match q
    case Single(result) => if result.Done? then result.value else []
    case Union(l, r, _, _) => Leaves(l) + Leaves(r)
  }

  /** No union in it has an ORDER BY or a LIMIT. */
  predicate Bare(q: Query) {
    match q
    case Single(_) => true
    case Union(l, r, _, tail) => Bare(l) && Bare(r) && tail.order.None? && tail.limit.NoLimit?
  }

  lemma {:induction false} SameAfterKeep(key: ResultRow -> string, q: Query)
    requires Evaluate(key, q).Done? && Bare(q)
    ensures Keep(key, Evaluate(key, q).value) == Keep(key, Leaves(q))
  {
    match q
    case Single(_) =>
    case Union(l, r, all, _) =>
      SameAfterKeep(key, l);
      SameAfterKeep(key, r);
      var x, y := Evaluate(key, l).value, Evaluate(key, r).value;
      KeepParts(key, Leaves(l), Leaves(r), x, y);
      if !all {
        KeepTwice(key, x + y);
      }
  }

  /**
   A plain UNION over any nest of UNION and UNION ALL is the first-occurrence de-duplication of all rows of all its
   SELECTs, left to right, and then its ORDER BY and LIMIT.
   */
  lemma {:induction false} PlainUnionIsKeep(key: ResultRow -> string, q: Query)
    requires q.Union? && !q.all && Evaluate(key, q).Done? && Bare(q.left) && Bare(q.right)
    ensures Evaluate(key, q).value == Finished(q.tail, Keep(key, Leaves(q)))
  {
    SameAfterKeep(key, q.left);
    SameAfterKeep(key, q.right);
    KeepParts(key, Leaves(q.left), Leaves(q.right), Evaluate(key, q.left).value, Evaluate(key, q.right).value);
  }

  /** All rows for UNION ALL; for a plain UNION, whatever is inside it, the rows of its SELECTs without repetition. */
  function Flattened(key: ResultRow -> string, q: Query): seq<ResultRow> {
    match q
    case Single(result) => if result.Done? then result.value else []
    case Union(l, r, all, _) => if all then Flattened(key, l) + Flattened(key, r) else Keep(key, Leaves(q))
  }

  /** In a nest of unions, each UNION de-duplicates what is inside it and UNION ALL around it adds rows as they are. */
  lemma {:induction false} NestIsFlattened(key: ResultRow -> string, q: Query)
    requires Evaluate(key, q).Done? && Bare(q)
    ensures Evaluate(key, q).value == Flattened(key, q)
  {
    match q
    case Single(_) =>
    case Union(l, r, all, _) =>
      if all {
        NestIsFlattened(key, l);
        NestIsFlattened(key, r);
      } else {
        PlainUnionIsKeep(key, q);
      }
  }

  predicate OnlyAll(q: Query) {
    match q case Single(_) => true case Union(l, r, all, _) => all && OnlyAll(l) && OnlyAll(r)
  }

  /** UNION ALL alone gives every row of every SELECT, as often as the SELECTs give it, left to right. */
  lemma {:induction false} UnionAllIsLeaves(key: ResultRow -> string, q: Query)
    requires Evaluate(key, q).Done? && Bare(q) && OnlyAll(q)
    ensures Evaluate(key, q).value == Leaves(q)
  {
    match q
    case Single(_) =>
    case Union(l, r, _, _) =>
      UnionAllIsLeaves(key, l);
      UnionAllIsLeaves(key, r);
  }

  /** A UNION ALL without LIMIT has each row as often as its two operands together. */
  lemma {:induction false} UnionAllAddsUp(key: ResultRow -> string, q: Query, row: ResultRow)
    requires q.Union? && q.all && Evaluate(key, q).Done? && Sorts(q) && q.tail.limit.NoLimit?
    ensures multiset(Evaluate(key, q).value)[row] ==
            multiset(Evaluate(key, q.left).value)[row] + multiset(Evaluate(key, q.right).value)[row]
  {
    var x, y := Evaluate(key, q.left).value, Evaluate(key, q.right).value;
    assert multiset(x + y) == multiset(x) + multiset(y);
  }

  /** A plain UNION without a tail tells any two of its rows apart and shows every row of its SELECTs by its key. */
  lemma {:induction false} UnionHasNoTwins(key: ResultRow -> string, q: Query)
    requires q.Union? && !q.all && Evaluate(key, q).Done? && Bare(q)
    ensures var rows := Evaluate(key, q).value;
      && (forall i, j :: 0 <= i < j < |rows| ==> key(rows[i]) != key(rows[j]))
      && (forall row :: row in rows ==> row in Leaves(q))
      && forall row :: row in Leaves(q) ==> exists other :: other in rows && key(other) == key(row)
  {
    PlainUnionIsKeep(key, q);
    var rows, all := Keep(key, Leaves(q)), Leaves(q);
    KeepKeys(key, {}, all);
    forall i, j | 0 <= i < j < |rows| ensures key(rows[i]) != key(rows[j]) { KeepDistinct(key, {}, all, i, j); }
    forall row | row in all ensures exists other :: other in rows && key(other) == key(row) {
      assert key(row) in KeySet(key, all) && KeySet(key, rows) == KeySet(key, all);
    }
  }

  predicate LeavesDone(q: Query) {
    match q case Single(result) => result.Done? case Union(l, r, _, _) => LeavesDone(l) && LeavesDone(r)
  }

  ghost predicate Wide(rows: seq<ResultRow>, width: nat) { forall row :: row in rows ==> |row| == width }

  /** Sorting neither adds nor loses rows; the stable sort of OrderBy.dfy does not. */
  ghost predicate Sorts(q: Query) {
    match q
    case Single(_) => true
    case Union(l, r, _, tail) =>
      && Sorts(l) && Sorts(r)
      && (tail.order.Some? ==> forall rows :: multiset(tail.order.value(rows)) == multiset(rows))
  }

  lemma {:induction false} FinishedRows(tail: Tail, rows: seq<ResultRow>)
    requires tail.order.Some? ==> multiset(tail.order.value(rows)) == multiset(rows)
    ensures forall row :: row in Finished(tail, rows) ==> row in rows
  {
    var sorted := if tail.order.Some? then tail.order.value(rows) else rows;
    forall row | row in sorted ensures row in rows { assert row in multiset(sorted); }
  }

  /** Every row of the result is a row of some SELECT. */
  lemma {:induction false} RowsComeFromLeaves(key: ResultRow -> string, q: Query)
    requires Evaluate(key, q).Done? && Sorts(q)
    ensures forall row :: row in Evaluate(key, q).value ==> row in Leaves(q)
  {
    match q
    case Single(_) =>
    case Union(l, r, all, tail) =>
      RowsComeFromLeaves(key, l);
      RowsComeFromLeaves(key, r);
      var rows := Evaluate(key, l).value + Evaluate(key, r).value;
      KeepKeys(key, {}, rows);
      FinishedRows(tail, if all then rows else Keep(key, rows));
  }

  /** When all SELECTs give rows of one width, the union fails exactly when one of them does. */
  lemma {:induction false} FailsOnlyWithASelect(key: ResultRow -> string, q: Query, width: nat)
    requires Wide(Leaves(q), width) && Sorts(q)
    ensures Evaluate(key, q).Done? <==> LeavesDone(q)
  {
    match q
    case Single(_) =>
    case Union(l, r, _, _) =>
      assert Wide(Leaves(l), width) && Wide(Leaves(r), width);
      FailsOnlyWithASelect(key, l, width);
      FailsOnlyWithASelect(key, r, width);
      if LeavesDone(q) {
        RowsComeFromLeaves(key, l);
        RowsComeFromLeaves(key, r);
        var x, y := Evaluate(key, l).value, Evaluate(key, r).value;
        if x != [] && y != [] { assert x[0] in Leaves(l) && y[0] in Leaves(r); }
      }
  }
}
