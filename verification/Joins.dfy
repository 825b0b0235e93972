/**
 Nested-loop joins and the cross product (pkg/core/query.go). A row of a join maps each
 table name to that table's row.
 */
module Joins {
  import opened Cells
  import Seqs

  type CombinedRow = map<string, Row>

  datatype JoinType = InnerJoin | LeftJoin | RightJoin | FullJoin

  /** An ON or WHERE condition, which may fail; a join without one takes every pair. */
  datatype Condition = Always | On(f: CombinedRow -> Outcome<bool>)

  function Test(on: Condition, row: CombinedRow): Outcome<bool> {
    match on case Always => Done(true) case On(f) => f(row)
  }

  /** Two rows side by side; a table on both sides keeps the right one. */
  function Merge(l: CombinedRow, r: CombinedRow): CombinedRow { l + r }

  /** Where a row of the result comes from. */
  datatype Item = Pair(i: nat, j: nat) | LeftOnly(i: nat) | RightOnly(j: nat)

  /** The operands of a join: rows on both sides, and the rows of NULLs that stand for a missing side. */
  datatype Operands = Operands(
    left: seq<CombinedRow>,
    right: seq<CombinedRow>,
    on: Condition,
    leftNulls: CombinedRow,
    rightNulls: CombinedRow)

  predicate Hits(o: Operands, i: nat, j: nat) {
    i < |o.left| && j < |o.right| && Test(o.on, Merge(o.left[i], o.right[j])) == Done(true)
  }

  predicate LeftMatched(o: Operands, i: nat) { exists j :: 0 <= j < |o.right| && Hits(o, i, j) }

  predicate RightMatched(o: Operands, j: nat) { exists i :: 0 <= i < |o.left| && Hits(o, i, j) }

  /** Testing left row `i` against the first `n` right rows: the first failure, if there is one. */
  function RowScan(o: Operands, i: nat, n: nat): Outcome<()>
    requires i < |o.left| && n <= |o.right|
  {
    if n == 0 then Done(())
    else
      var before := RowScan(o, i, n - 1);
      var last := Test(o.on, Merge(o.left[i], o.right[n - 1]));
      if !before.Done? then before else if last.Done? then Done(()) else last.Rethrow()
  }

  /** Testing every pair of the first `n` left rows, in nested-loop order. */
  function Scan(o: Operands, n: nat): Outcome<()>
    requires n <= |o.left|
  {
    if n == 0 then Done(())
    else var before := Scan(o, n - 1); if before.Done? then RowScan(o, n - 1, |o.right|) else before
  }

  /** The condition fails on no pair. */
  predicate Evaluable(o: Operands) { Scan(o, |o.left|).Done? }

  /** The row an item stands for; an item that points outside the operands stands for no table at all. */
  function RowOf(o: Operands, x: Item): CombinedRow {
    match x
    case Pair(i, j) => if i < |o.left| && j < |o.right| then Merge(o.left[i], o.right[j]) else map[]
    case LeftOnly(i) => if i < |o.left| then Merge(o.left[i], o.rightNulls) else map[]
    case RightOnly(j) => if j < |o.right| then Merge(o.leftNulls, o.right[j]) else map[]
  }

  function RowsOf(o: Operands, xs: seq<Item>): (rows: seq<CombinedRow>)
    ensures |rows| == |xs|
  {
    seq(|xs|, k requires 0 <= k < |xs| => RowOf(o, xs[k]))
  }

  // ------------------------------------------- the result, declaratively

  /** The matches of left row `i` among the first `n` right rows. */
  function RowPairs(o: Operands, i: nat, n: nat): seq<Item> {
    if n == 0 then []
    else RowPairs(o, i, n - 1) + if Hits(o, i, n - 1) then [Pair(i, n - 1)] else []
  }

  /** All matches of the first `n` left rows, in nested-loop order. */
  function Pairs(o: Operands, n: nat): seq<Item> {
    if n == 0 then [] else Pairs(o, n - 1) + RowPairs(o, n - 1, |o.right|)
  }

  function LeftOnlys(o: Operands, n: nat): seq<Item> {
    if n == 0 then [] else LeftOnlys(o, n - 1) + if LeftMatched(o, n - 1) then [] else [LeftOnly(n - 1)]
  }

  function RightOnlys(o: Operands, n: nat): seq<Item> {
    if n == 0 then [] else RightOnlys(o, n - 1) + if RightMatched(o, n - 1) then [] else [RightOnly(n - 1)]
  }

  predicate KeepsLeft(t: JoinType) { t.LeftJoin? || t.FullJoin? }

  predicate KeepsRight(t: JoinType) { t.RightJoin? || t.FullJoin? }

  /** Matches, then unmatched left rows (LEFT, FULL), then unmatched right rows (RIGHT, FULL). */
  function JoinItems(o: Operands, t: JoinType): seq<Item> {
    Pairs(o, |o.left|)
    + (if KeepsLeft(t) then LeftOnlys(o, |o.left|) else [])
    + (if KeepsRight(t) then RightOnlys(o, |o.right|) else [])
  }

  /** The order of the result: matches by left then right position, then left rows, then right rows. */
  predicate Before(x: Item, y: Item) {
    match x
    case Pair(i, j) => if y.Pair? then i < y.i || (i == y.i && j < y.j) else true
    case LeftOnly(i) => if y.LeftOnly? then i < y.i else y.RightOnly?
    case RightOnly(j) => y.RightOnly? && j < y.j
  }

  predicate InOrder(xs: seq<Item>) {
    forall p, q :: 0 <= p < q < |xs| ==> Before(xs[p], xs[q])
  }

  lemma {:induction false} OrderedJoin(a: seq<Item>, b: seq<Item>)
    requires InOrder(a) && InOrder(b) && forall x, y :: x in a && y in b ==> Before(x, y)
    ensures InOrder(a + b)
  {
    forall p, q | 0 <= p < q < |a + b| ensures Before((a + b)[p], (a + b)[q]) {
      if p < |a| <= q { assert (a + b)[p] in a && (a + b)[q] in b; }
    }
  }

  lemma {:induction false} RowPairsAre(o: Operands, i: nat, n: nat)
    ensures forall x :: x in RowPairs(o, i, n) <==> x.Pair? && x.i == i && x.j < n && Hits(o, i, x.j)
    ensures InOrder(RowPairs(o, i, n))
  {
    if n > 0 {
      RowPairsAre(o, i, n - 1);
      OrderedJoin(RowPairs(o, i, n - 1), if Hits(o, i, n - 1) then [Pair(i, n - 1)] else []);
    }
  }

  lemma {:induction false} PairsAre(o: Operands, n: nat)
    ensures forall x :: x in Pairs(o, n) <==> x.Pair? && x.i < n && Hits(o, x.i, x.j)
    ensures InOrder(Pairs(o, n))
  {
    if n > 0 {
      PairsAre(o, n - 1);
      RowPairsAre(o, n - 1, |o.right|);
      OrderedJoin(Pairs(o, n - 1), RowPairs(o, n - 1, |o.right|));
    }
  }

  lemma {:induction false} LeftOnlysAre(o: Operands, n: nat)
    ensures forall x :: x in LeftOnlys(o, n) <==> x.LeftOnly? && x.i < n && !LeftMatched(o, x.i)
    ensures InOrder(LeftOnlys(o, n))
  {
    if n > 0 {
      LeftOnlysAre(o, n - 1);
      OrderedJoin(LeftOnlys(o, n - 1), if LeftMatched(o, n - 1) then [] else [LeftOnly(n - 1)]);
    }
  }

  lemma {:induction false} RightOnlysAre(o: Operands, n: nat)
    ensures forall x :: x in RightOnlys(o, n) <==> x.RightOnly? && x.j < n && !RightMatched(o, x.j)
    ensures InOrder(RightOnlys(o, n))
  {
    if n > 0 {
      RightOnlysAre(o, n - 1);
      OrderedJoin(RightOnlys(o, n - 1), if RightMatched(o, n - 1) then [] else [RightOnly(n - 1)]);
    }
  }

  /** What belongs in the result of a join. */
  predicate Belongs(o: Operands, t: JoinType, x: Item) {
    match x
    case Pair(i, j) => Hits(o, i, j)
    case LeftOnly(i) => KeepsLeft(t) && i < |o.left| && !LeftMatched(o, i)
    case RightOnly(j) => KeepsRight(t) && j < |o.right| && !RightMatched(o, j)
  }

  /**
   The result of a join holds exactly the matching pairs, the unmatched left rows if they are kept and the unmatched
   right rows if they are kept, each once, in that order.
   */
  lemma {:induction false} JoinIsExact(o: Operands, t: JoinType)
    ensures InOrder(JoinItems(o, t)) && Seqs.Distinct(JoinItems(o, t))
    ensures forall x :: x in JoinItems(o, t) <==> Belongs(o, t, x)
  {
    var ps, ls, rs := Pairs(o, |o.left|), LeftOnlys(o, |o.left|), RightOnlys(o, |o.right|);
    PairsAre(o, |o.left|);
    LeftOnlysAre(o, |o.left|);
    RightOnlysAre(o, |o.right|);
    if !KeepsLeft(t) { ls := []; }
    if !KeepsRight(t) { rs := []; }
    OrderedJoin(ps, ls);
    OrderedJoin(ps + ls, rs);
    assert JoinItems(o, t) == ps + ls + rs;
  }

  // ------------------------------------------------------ the nested loop

  lemma {:induction false} RowsSnoc(o: Operands, xs: seq<Item>, x: Item)
    ensures RowsOf(o, xs + [x]) == RowsOf(o, xs) + [RowOf(o, x)]
  {
  }

  /** One more pair of the nested loop. */
  lemma {:induction false} RowPairsStep(o: Operands, i: nat, j: nat)
    requires i < |o.left| && j < |o.right|
    ensures RowsOf(o, Pairs(o, i) + RowPairs(o, i, j + 1)) ==
      RowsOf(o, Pairs(o, i) + RowPairs(o, i, j)) + if Hits(o, i, j) then [Merge(o.left[i], o.right[j])] else []
  {
    var p, r := Pairs(o, i), RowPairs(o, i, j);
    if Hits(o, i, j) {
      RowsSnoc(o, p + r, Pair(i, j));
      Seqs.Assoc(p, r, [Pair(i, j)]);
    } else {
      Seqs.Empty(r);
      Seqs.Empty(RowsOf(o, p + r));
    }
  }

  /** The right rows among the first `n` that left row `i` matches. */
  ghost function HitSet(o: Operands, i: nat, n: nat): set<nat> { set j: nat | j < n && Hits(o, i, j) }

  lemma {:induction false} HitSetStep(o: Operands, i: nat, j: nat)
    ensures HitSet(o, i, j + 1) == HitSet(o, i, j) + if Hits(o, i, j) then {j} else {}
  {
  }

  lemma {:induction false} HitSetMatches(o: Operands, i: nat)
    ensures HitSet(o, i, |o.right|) != {} <==> LeftMatched(o, i)
  {
    if j: nat :| j < |o.right| && Hits(o, i, j) { assert j in HitSet(o, i, |o.right|); }
  }

  /** Where the inner loop stands after `n` right rows. */
  ghost predicate RowState(
    o: Operands, i: nat, n: nat, joined: seq<CombinedRow>, matched: bool, before: set<nat>, after: set<nat>)
    requires i < |o.left| && n <= |o.right|
  {
    && joined == RowsOf(o, Pairs(o, i) + RowPairs(o, i, n))
    && (matched <==> HitSet(o, i, n) != {})
    && after == before + HitSet(o, i, n)
    && RowScan(o, i, n).Done?
  }

  lemma {:induction false} RowStateStep(
    o: Operands, i: nat, j: nat, joined: seq<CombinedRow>, matched: bool, before: set<nat>, after: set<nat>)
    requires i < |o.left| && j < |o.right| && RowState(o, i, j, joined, matched, before, after)
    requires Test(o.on, Merge(o.left[i], o.right[j])).Done?
    ensures Hits(o, i, j) ==> RowState(o, i, j + 1, joined + [Merge(o.left[i], o.right[j])], true, before, after + {j})
    ensures !Hits(o, i, j) ==> RowState(o, i, j + 1, joined, matched, before, after)
  {
    RowPairsStep(o, i, j);
    HitSetStep(o, i, j);
    Seqs.Empty(joined);
  }

  lemma {:induction false} FailureStops(o: Operands, i: nat, j: nat, n: nat)
    requires i < |o.left| && j <= n <= |o.right| && !RowScan(o, i, j).Done?
    ensures RowScan(o, i, n) == RowScan(o, i, j)
  {
    if j < n { FailureStops(o, i, j, n - 1); }
  }

  lemma {:induction false} FailureStopsAll(o: Operands, i: nat, n: nat)
    requires i <= n <= |o.left| && !Scan(o, i).Done?
    ensures Scan(o, n) == Scan(o, i)
  {
    if i < n { FailureStopsAll(o, i, n - 1); }
  }

  /** The pairs of one left row. */
  method JoinRow(o: Operands, i: nat, rows: seq<CombinedRow>, matchedRight: set<nat>)
    returns (r: Outcome<seq<CombinedRow>>, matched: bool, matchedRight': set<nat>)
    requires i < |o.left| && rows == RowsOf(o, Pairs(o, i))
    ensures RowScan(o, i, |o.right|).Done? <==> r.Done?
    ensures !r.Done? ==> r.Rethrow() == RowScan(o, i, |o.right|)
    ensures r.Done? ==> r.value == RowsOf(o, Pairs(o, i + 1)) && (matched <==> LeftMatched(o, i))
    ensures r.Done? ==> matchedRight' == matchedRight + HitSet(o, i, |o.right|)
  {
    var joined := rows;
    matched, matchedRight' := false, matchedRight;
    Seqs.Empty(Pairs(o, i));
    for j := 0 to |o.right|
      invariant RowState(o, i, j, joined, matched, matchedRight, matchedRight')
    {
      var merged := Merge(o.left[i], o.right[j]);
      var shouldJoin := Test(o.on, merged);
      if !shouldJoin.Done? {
        FailureStops(o, i, j + 1, |o.right|);
        return shouldJoin.Rethrow(), false, {};
      }
      RowStateStep(o, i, j, joined, matched, matchedRight, matchedRight');
      if shouldJoin.value {
        joined := joined + [merged];
        matched, matchedRight' := true, matchedRight' + {j};
      }
    }
    HitSetMatches(o, i);
    r := Done(joined);
  }

  ghost predicate MatchedSoFar(o: Operands, n: nat, matchedLeft: set<nat>, matchedRight: set<nat>) {
    && (forall k: nat :: k in matchedLeft <==> k < n && LeftMatched(o, k))
    && (forall j: nat :: j in matchedRight <==> exists k :: 0 <= k < n && Hits(o, k, j))
  }

  lemma {:induction false} MatchedStep(o: Operands, n: nat, matchedLeft: set<nat>, matchedRight: set<nat>)
    requires n < |o.left| && MatchedSoFar(o, n, matchedLeft, matchedRight)
    ensures MatchedSoFar(o, n + 1, if LeftMatched(o, n) then matchedLeft + {n} else matchedLeft,
                         matchedRight + HitSet(o, n, |o.right|))
  {
    var l := if LeftMatched(o, n) then matchedLeft + {n} else matchedLeft;
    var r := matchedRight + HitSet(o, n, |o.right|);
    forall k: nat ensures k in l <==> k < n + 1 && LeftMatched(o, k) {}
    forall j: nat ensures j in r <==> exists k :: 0 <= k < n + 1 && Hits(o, k, j) {
      if k :| 0 <= k < n + 1 && Hits(o, k, j) { assert k == n || j in matchedRight; }
    }
  }

  /** The rows of a join, or the first failure of its condition. */
  function JoinRows(o: Operands, t: JoinType): Outcome<seq<CombinedRow>> {
    if Evaluable(o) then Done(RowsOf(o, JoinItems(o, t))) else Scan(o, |o.left|).Rethrow()
  }

  /** The join: nested loops that remember which rows on each side have matched, then the padded rows. */
  method ExecuteJoin(o: Operands, t: JoinType) returns (r: Outcome<seq<CombinedRow>>)
    ensures r == JoinRows(o, t)
  {
    var joined: seq<CombinedRow>, matchedLeft: set<nat>, matchedRight: set<nat> := [], {}, {};
    for i := 0 to |o.left|
      invariant joined == RowsOf(o, Pairs(o, i))
      invariant MatchedSoFar(o, i, matchedLeft, matchedRight)
      invariant Scan(o, i).Done?
    {
      var row, matched, more := JoinRow(o, i, joined, matchedRight);
      if !row.Done? {
        FailureStopsAll(o, i + 1, |o.left|);
        return row;
      }
      MatchedStep(o, i, matchedLeft, matchedRight);
      joined, matchedRight := row.value, more;
      if matched { matchedLeft := matchedLeft + {i}; }
    }
    ghost var xs := Pairs(o, |o.left|);
    if KeepsLeft(t) {
      joined := PadLeft(o, matchedLeft, joined, xs);
      xs := xs + LeftOnlys(o, |o.left|);
    }
    if KeepsRight(t) {
      joined := PadRight(o, matchedRight, joined, xs);
      xs := xs + RightOnlys(o, |o.right|);
    }
    Seqs.Empty(Pairs(o, |o.left|));
    Seqs.Empty(Pairs(o, |o.left|) + LeftOnlys(o, |o.left|));
    assert xs == JoinItems(o, t);
    r := Done(joined);
  }

  /** Appends the left rows that matched nothing, beside NULLs. */
  method PadLeft(
    o: Operands, matchedLeft: set<nat>, rows: seq<CombinedRow>, ghost xs: seq<Item>) returns (r: seq<CombinedRow>)
    requires rows == RowsOf(o, xs)
    requires forall i: nat :: i < |o.left| ==> (i in matchedLeft <==> LeftMatched(o, i))
    ensures r == RowsOf(o, xs + LeftOnlys(o, |o.left|))
  {
    r := rows;
    Seqs.Empty(xs);
    for i := 0 to |o.left|
      invariant r == RowsOf(o, xs + LeftOnlys(o, i))
    {
      ghost var done := LeftOnlys(o, i);
      Seqs.Empty(done);
      assert LeftOnlys(o, i + 1) == done + if LeftMatched(o, i) then [] else [LeftOnly(i)];
      if i !in matchedLeft {
        RowsSnoc(o, xs + done, LeftOnly(i));
        Seqs.Assoc(xs, done, [LeftOnly(i)]);
        r := r + [Merge(o.left[i], o.rightNulls)];
      }
    }
  }

  /** Appends the right rows that matched nothing, beside NULLs. */
  method PadRight(
    o: Operands, matchedRight: set<nat>, rows: seq<CombinedRow>, ghost xs: seq<Item>) returns (r: seq<CombinedRow>)
    requires rows == RowsOf(o, xs)
    requires forall j: nat :: j < |o.right| ==> (j in matchedRight <==> RightMatched(o, j))
    ensures r == RowsOf(o, xs + RightOnlys(o, |o.right|))
  {
    r := rows;
    Seqs.Empty(xs);
    for j := 0 to |o.right|
      invariant r == RowsOf(o, xs + RightOnlys(o, j))
    {
      ghost var done := RightOnlys(o, j);
      Seqs.Empty(done);
      assert RightOnlys(o, j + 1) == done + if RightMatched(o, j) then [] else [RightOnly(j)];
      if j !in matchedRight {
        RowsSnoc(o, xs + done, RightOnly(j));
        Seqs.Assoc(xs, done, [RightOnly(j)]);
        r := r + [Merge(o.leftNulls, o.right[j])];
      }
    }
  }

  // ------------------------------------------- RIGHT JOIN is LEFT JOIN turned round

  function Flip(x: Item): Item {
    match x case Pair(i, j) => Pair(j, i) case LeftOnly(i) => RightOnly(i) case RightOnly(j) => LeftOnly(j)
  }

  function FlipAll(xs: seq<Item>): seq<Item> { seq(|xs|, k requires 0 <= k < |xs| => Flip(xs[k])) }

  function FlipType(t: JoinType): JoinType {
    match t case LeftJoin => RightJoin case RightJoin => LeftJoin case _ => t
  }

  /** The same join with its operands exchanged; the condition may list the tables in another order. */
  function FlipOperands(o: Operands, on: Condition): Operands {
    Operands(o.right, o.left, on, o.rightNulls, o.leftNulls)
  }

  /** No table is on both sides. */
  predicate Apart(o: Operands) {
    && (forall i, j :: 0 <= i < |o.left| && 0 <= j < |o.right| ==> o.left[i].Keys !! o.right[j].Keys)
    && (forall i :: 0 <= i < |o.left| ==> o.left[i].Keys !! o.rightNulls.Keys)
    && (forall j :: 0 <= j < |o.right| ==> o.leftNulls.Keys !! o.right[j].Keys)
  }

  ghost predicate SameCondition(a: Condition, b: Condition) { forall row :: Test(a, row) == Test(b, row) }

  lemma {:induction false} FlippedHits(o: Operands, on: Condition, i: nat, j: nat)
    requires Apart(o) && SameCondition(o.on, on)
    ensures Hits(FlipOperands(o, on), j, i) == Hits(o, i, j)
  {
    if i < |o.left| && j < |o.right| { assert Merge(o.right[j], o.left[i]) == Merge(o.left[i], o.right[j]); }
  }

  lemma {:induction false} FlippedItem(o: Operands, on: Condition, t: JoinType, x: Item)
    requires Apart(o) && SameCondition(o.on, on)
    ensures Belongs(FlipOperands(o, on), FlipType(t), Flip(x)) == Belongs(o, t, x)
    ensures RowOf(FlipOperands(o, on), Flip(x)) == RowOf(o, x)
  {
    forall i: nat, j: nat ensures Hits(FlipOperands(o, on), j, i) == Hits(o, i, j) { FlippedHits(o, on, i, j); }
    FlippedRow(o, on, x);
  }

  lemma {:induction false} FlippedRow(o: Operands, on: Condition, x: Item)
    requires Apart(o)
    ensures RowOf(FlipOperands(o, on), Flip(x)) == RowOf(o, x)
  {
    match x
    case Pair(i, j) =>
      if i < |o.left| && j < |o.right| { assert Merge(o.right[j], o.left[i]) == Merge(o.left[i], o.right[j]); }
    case LeftOnly(i) => if i < |o.left| { assert Merge(o.rightNulls, o.left[i]) == Merge(o.left[i], o.rightNulls); }
    case RightOnly(j) => if j < |o.right| { assert Merge(o.right[j], o.leftNulls) == Merge(o.leftNulls, o.right[j]); }
  }

  /** Two lists without repetition and with the same elements are permutations of each other. */
  lemma {:induction false} SameElements<T>(a: seq<T>, b: seq<T>)
    requires Seqs.Distinct(a) && Seqs.Distinct(b) && forall x :: x in a <==> x in b
    ensures multiset(a) == multiset(b)
  {
    forall x ensures multiset(a)[x] == multiset(b)[x] {
      CountDistinct(a, x);
      CountDistinct(b, x);
    }
  }

  lemma {:induction false} CountDistinct<T>(a: seq<T>, x: T)
    requires Seqs.Distinct(a)
    ensures multiset(a)[x] == if x in a then 1 else 0
  {
    if a != [] {
      var n := |a| - 1;
      Seqs.Unsnoc(a, n);
      assert a[..n + 1] == a;
      CountDistinct(a[..n], x);
    }
  }

  lemma {:induction false} RowsJoin(o: Operands, a: seq<Item>, b: seq<Item>)
    ensures RowsOf(o, a + b) == RowsOf(o, a) + RowsOf(o, b)
  {
  }

  lemma {:induction false} RowsAround(o: Operands, l: seq<Item>, x: Item, r: seq<Item>)
    ensures multiset(RowsOf(o, l + ([x] + r))) == multiset(RowsOf(o, l + r)) + multiset{RowOf(o, x)}
  {
    RowsJoin(o, l, [x] + r);
    RowsJoin(o, [x], r);
    RowsJoin(o, l, r);
    assert RowsOf(o, [x]) == [RowOf(o, x)];
  }

  /** Permuted items give permuted rows. */
  lemma {:induction false} PermutedRows(o: Operands, a: seq<Item>, b: seq<Item>)
    requires multiset(a) == multiset(b)
    ensures multiset(RowsOf(o, a)) == multiset(RowsOf(o, b))
    decreases |a|
  {
    if a == [] {
      assert |b| == |multiset(b)| == 0;
    } else {
      var x := a[0];
      assert x in multiset(b);
      var l, r := Seqs.TakeOut(b, x);
      Seqs.Uncons(a, 0);
      Seqs.Empty(a);
      assert multiset(a[1..]) == multiset(a) - multiset{x};
      PermutedRows(o, a[1..], l + r);
      RowsAround(o, [], x, a[1..]);
      RowsAround(o, l, x, r);
      Seqs.Empty([x] + a[1..]);
      Seqs.Empty(a[1..]);
    }
  }

  /**
   Over tables with different names, exchanging the operands of a join and LEFT with RIGHT changes no row and loses no
   row: A RIGHT JOIN B is a permutation of B LEFT JOIN A, and likewise for INNER and FULL joins.
   */
  lemma {:induction false} FlippedJoin(o: Operands, on: Condition, t: JoinType)
    requires Apart(o) && SameCondition(o.on, on)
    ensures Evaluable(FlipOperands(o, on)) <==> Evaluable(o)
    ensures multiset(RowsOf(o, JoinItems(o, t))) ==
            multiset(RowsOf(FlipOperands(o, on), JoinItems(FlipOperands(o, on), FlipType(t))))
  {
    var o', t' := FlipOperands(o, on), FlipType(t);
    var a, b := JoinItems(o, t), JoinItems(o', t');
    FlippedEvaluable(o, on);
    FlippedEvaluable(o', o.on);
    assert FlipOperands(o', o.on) == o;
    JoinIsExact(o, t);
    JoinIsExact(o', t');
    FlippedItems(o, on, t);
    SameElements(FlipAll(a), b);
    PermutedRows(o', FlipAll(a), b);
    forall k | 0 <= k < |a| ensures RowOf(o', FlipAll(a)[k]) == RowOf(o, a[k]) { FlippedItem(o, on, t, a[k]); }
    assert RowsOf(o', FlipAll(a)) == RowsOf(o, a);
  }

  lemma {:induction false} RowScanDone(o: Operands, i: nat, n: nat)
    requires i < |o.left| && n <= |o.right|
    ensures RowScan(o, i, n).Done? <==> forall j :: 0 <= j < n ==> Test(o.on, Merge(o.left[i], o.right[j])).Done?
  {
    if n > 0 { RowScanDone(o, i, n - 1); }
  }

  predicate RowFine(o: Operands, i: nat)
    requires i < |o.left|
  {
    RowScan(o, i, |o.right|).Done?
  }

  lemma {:induction false} ScanDone(o: Operands, n: nat)
    requires n <= |o.left|
    ensures Scan(o, n).Done? <==> forall i: nat :: i < n ==> RowFine(o, i)
  {
    if n > 0 {
      ScanDone(o, n - 1);
      assert Scan(o, n).Done? <==> Scan(o, n - 1).Done? && RowFine(o, n - 1);
    }
  }

  lemma {:induction false} FlippedEvaluable(o: Operands, on: Condition)
    requires Apart(o) && SameCondition(o.on, on)
    ensures Evaluable(o) ==> Evaluable(FlipOperands(o, on))
  {
    var o' := FlipOperands(o, on);
    ScanDone(o, |o.left|);
    ScanDone(o', |o.right|);
    if Evaluable(o) {
      forall j: nat | j < |o.right| ensures RowFine(o', j) {
        RowScanDone(o', j, |o.left|);
        forall i: nat | i < |o.left| ensures Test(on, Merge(o.right[j], o.left[i])).Done? {
          assert RowFine(o, i);
          RowScanDone(o, i, |o.right|);
          assert Merge(o.right[j], o.left[i]) == Merge(o.left[i], o.right[j]);
        }
      }
    }
  }

  lemma {:induction false} FlippedItems(o: Operands, on: Condition, t: JoinType)
    requires Apart(o) && SameCondition(o.on, on)
    ensures Seqs.Distinct(FlipAll(JoinItems(o, t)))
    ensures forall y :: y in FlipAll(JoinItems(o, t)) <==> y in JoinItems(FlipOperands(o, on), FlipType(t))
  {
    var a, b := JoinItems(o, t), JoinItems(FlipOperands(o, on), FlipType(t));
    JoinIsExact(o, t);
    JoinIsExact(FlipOperands(o, on), FlipType(t));
    forall y ensures y in FlipAll(a) <==> y in b {
      FlippedItem(o, on, t, Flip(y));
      assert Flip(Flip(y)) == y;
      if Flip(y) in a {
        var k :| 0 <= k < |a| && a[k] == Flip(y);
        assert FlipAll(a)[k] == y;
      }
    }
    FlippedDistinct(a);
  }

  lemma {:induction false} FlippedDistinct(items: seq<Item>)
    requires Seqs.Distinct(items)
    ensures Seqs.Distinct(FlipAll(items))
  {
    forall p, q | 0 <= p < q < |items| ensures FlipAll(items)[p] != FlipAll(items)[q] {
      assert Flip(Flip(items[p])) == items[p] && Flip(Flip(items[q])) == items[q];
    }
  }
}
