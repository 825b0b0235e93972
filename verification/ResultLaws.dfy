/**
 What ORDER BY and the aggregate functions give (pkg/core/query.go), stated without the comparators and the running
 totals that compute it.
 */
module ResultLaws {
  import opened Cells
  import A = Aggregates
  import L = QueryLaws
  import O = OrderBy
  import N = Unions
  import E = Evaluator
  import opened Options
  import Keys
  import Seqs

  // ---------------------------------------------------------------- ORDER BY

  /** The first difference decides, and a proper prefix comes first. */
  predicate DiffersAt(a: string, b: string, n: nat) {
    n <= |a| && n < |b| && a[..n] == b[..n] && (n == |a| || a[n] < b[n])
  }

  predicate ComesFirst(a: string, b: string) { exists n :: 0 <= n < |b| && DiffersAt(a, b, n) }

  lemma {:induction false} LexIs(a: string, b: string)
    ensures Keys.LexLess(a, b) <==> ComesFirst(a, b)
    decreases |b|
  {
    if b != [] && a != [] && a[0] == b[0] {
      LexIs(a[1..], b[1..]);
      if n :| 0 <= n < |b| && DiffersAt(a, b, n) {
        assert n > 0;
        assert a[1..][..n - 1] == a[..n][1..] && b[1..][..n - 1] == b[..n][1..];
        assert DiffersAt(a[1..], b[1..], n - 1);
      }
      if n :| 0 <= n < |b[1..]| && DiffersAt(a[1..], b[1..], n) {
        assert a[..n + 1] == [a[0]] + a[1..][..n] && b[..n + 1] == [b[0]] + b[1..][..n];
        assert DiffersAt(a, b, n + 1);
      }
    } else if b != [] {
      if a == [] || a[0] < b[0] { assert DiffersAt(a, b, 0); }
      forall n: nat | 0 < n < |b| ensures !DiffersAt(a, b, n) {
        if n <= |a| { assert a[..n][0] == a[0] && b[..n][0] == b[0]; }
      }
    }
  }

  ghost predicate SmallerNumber(parse: Parse, a: Cell, b: Cell) {
    exists x: real, y: real :: L.StandsFor(parse, a, x) && L.StandsFor(parse, b, y) && x < y
  }

  /** In a column of one kind: NULL is below every value, numbers go by size and words by their bytes. */
  ghost predicate Below(parse: Parse, kind: O.Kind, a: Cell, b: Cell) {
    || (a == Null && b != Null)
    || (kind.Numbers? && SmallerNumber(parse, a, b))
    || (kind.Words? && a.Text? && b.Text? && ComesFirst(a.s, b.s))
  }

  /** Below where the key ascends, above where it descends. */
  ghost predicate InPlace(parse: Parse, kind: O.Kind, descending: bool, a: Cell, b: Cell) {
    if descending then Below(parse, kind, b, a) else Below(parse, kind, a, b)
  }

  lemma {:induction false} NumbersBelow(parse: Parse, a: Cell, b: Cell)
    requires NumericValue(parse, a).Num? && NumericValue(parse, b).Num?
    ensures SmallerNumber(parse, a, b) <==> NumericValue(parse, a).r < NumericValue(parse, b).r
  {
    var m, n := NumericValue(parse, a).r, NumericValue(parse, b).r;
    L.NumbersAre(parse, a, m);
    L.NumbersAre(parse, b, n);
    forall x: real | L.StandsFor(parse, a, x) ensures x == m { L.NumbersAre(parse, a, x); }
    forall y: real | L.StandsFor(parse, b, y) ensures y == n { L.NumbersAre(parse, b, y); }
  }

  lemma {:induction false} NullIsNoNumber(parse: Parse, a: Cell, b: Cell)
    requires a == Null || b == Null
    ensures !SmallerNumber(parse, a, b)
  {
  }

  /** On a column of one kind a key puts one value before another exactly when it is in place there. */
  lemma {:induction false} KeyIs(parse: Parse, kind: O.Kind, descending: bool, a: Cell, b: Cell)
    requires O.Fits(parse, kind, a) && O.Fits(parse, kind, b)
    ensures O.CompareKey(parse, descending, a, b) == O.Before <==> InPlace(parse, kind, descending, a, b)
    ensures O.CompareKey(parse, descending, a, b) == O.After <==> InPlace(parse, kind, descending, b, a)
  {
    if a == Null || b == Null {
      NullIsNoNumber(parse, a, b);
      NullIsNoNumber(parse, b, a);
    } else if kind.Numbers? {
      NumbersBelow(parse, a, b);
      NumbersBelow(parse, b, a);
    } else if kind.Words? {
      LexIs(a.s, b.s);
      LexIs(b.s, a.s);
      O.TextDecides(a.s, b.s);
    }
  }

  /** Key `k` is the first on which the two rows differ, and it puts them in place; with none they tie. */
  ghost predicate Decides(t: O.Table, kinds: seq<O.Kind>, a: nat, b: nat, k: nat)
    requires O.Uniform(t, kinds) && a < |t.keys| && b < |t.keys|
  {
    && k <= |kinds|
    && (forall m :: 0 <= m < k ==>
          && !Below(t.parse, kinds[m], t.keys[a][m], t.keys[b][m])
          && !Below(t.parse, kinds[m], t.keys[b][m], t.keys[a][m]))
    && (k < |kinds| ==> InPlace(t.parse, kinds[k], t.descending[k], t.keys[a][k], t.keys[b][k]))
  }

  lemma {:induction false} LessDecides(t: O.Table, kinds: seq<O.Kind>, a: nat, b: nat, from: nat) returns (k: nat)
    requires O.Uniform(t, kinds) && a < |t.keys| && b < |t.keys| && from <= |kinds|
    requires !O.Less(t.parse, t.descending, t.keys[b], t.keys[a], from)
    requires forall m :: 0 <= m < from ==>
      && !Below(t.parse, kinds[m], t.keys[a][m], t.keys[b][m])
      && !Below(t.parse, kinds[m], t.keys[b][m], t.keys[a][m])
    ensures Decides(t, kinds, a, b, k)
    ensures k < |kinds| <==> O.Less(t.parse, t.descending, t.keys[a], t.keys[b], from)
    decreases |kinds| - from
  {
    if from == |kinds| { return from; }
    var x, y := t.keys[a][from], t.keys[b][from];
    KeyIs(t.parse, kinds[from], t.descending[from], x, y);
    KeyIs(t.parse, kinds[from], t.descending[from], y, x);
    if O.CompareKey(t.parse, t.descending[from], x, y) == O.Tie {
      k := LessDecides(t, kinds, a, b, from + 1);
    } else {
      k := from;
    }
  }

  /**
   ORDER BY over columns each of one kind: of any two rows of the result the earlier one is in place at the first key on
   which they differ, and rows that differ on no key are in the order they had.
   */
  lemma {:induction false} OrderMeans(t: O.Table, kinds: seq<O.Kind>, p: seq<nat>, i: nat, j: nat) returns (k: nat)
    requires O.Uniform(t, kinds) && O.Rows(t, p) && i < j < |p|
    ensures var q := O.StableSort(O.ByKeysFrom(t, 0), p);
      && multiset(q) == multiset(p) && |q| == |p|
      && q[i] < |t.keys| && q[j] < |t.keys|
      && Decides(t, kinds, q[i], q[j], k)
      && (k == |kinds| ==> O.Earlier(p, q[i], q[j]))
  {
    var less := O.ByKeysFrom(t, 0);
    var q := O.StableSort(less, p);
    O.OrderByIsStrict(t, kinds, 0, p);
    O.SortIsStable(less, p);
    assert |q| == |multiset(q)| == |p|;
    O.PermutedDistinct(p, q);
    assert q[i] in q && q[j] in q;
    assert O.Goes(less, p, q[i], q[j]);
    assert less(q[i], q[j]) ==> !less(q[j], q[i]);
    k := LessDecides(t, kinds, q[i], q[j], 0);
  }

  // ---------------------------------------------------------------- aggregates

  /** `s` is the sum: the last of the partial sums. */
  predicate Sums(xs: seq<real>, partial: seq<real>, s: real) {
    && |partial| == |xs| + 1 && partial[0] == 0.0 && partial[|xs|] == s
    && forall i :: 0 <= i < |xs| ==> partial[i + 1] == partial[i] + xs[i]
  }

  lemma {:induction false} TotalSums(xs: seq<real>) returns (partial: seq<real>)
    ensures Sums(xs, partial, A.Total(xs))
  {
    if xs == [] { return [0.0]; }
    var n := |xs| - 1;
    var before := TotalSums(xs[..n]);
    partial := before + [A.Total(xs)];
  }

  /** A number of the list that no other is on the wrong side of. */
  predicate IsLeast(xs: seq<real>, m: real) { m in xs && forall x :: x in xs ==> m <= x }

  predicate IsGreatest(xs: seq<real>, m: real) { m in xs && forall x :: x in xs ==> x <= m }

  lemma {:induction false} DividedBack(x: real, n: real)
    requires n > 0.0
    ensures x / n * n == x
  {
  }

  /** AVG times the number of numbers is their sum. */
  lemma {:induction false} AverageIs(xs: seq<real>) returns (partial: seq<real>, s: real, a: real)
    requires xs != []
    ensures A.Aggregate(A.Avg, xs) == Real(a) && a * |xs| as real == s && Sums(xs, partial, s)
  {
    partial := TotalSums(xs);
    s := A.Total(xs);
    a := s / |xs| as real;
    DividedBack(s, |xs| as real);
  }

  /** AVG lies between the extremes. */
  lemma {:induction false} AverageIsWithin(xs: seq<real>, a: real, m: real, n: real)
    requires xs != [] && IsLeast(xs, m) && IsGreatest(xs, n) && A.Aggregate(A.Avg, xs) == Real(a)
    ensures m <= a <= n
  {
    A.AverageIsBetween(xs);
    A.LeastIsLeast(xs);
  }

  /** SUM is the sum of the numbers, MIN and MAX are the extremes, and all aggregates are NULL over no number. */
  lemma {:induction false} AggregatesAre(xs: seq<real>) returns (partial: seq<real>, s: real, m: real, n: real)
    ensures xs == [] ==> forall f :: A.Aggregate(f, xs) == Null
    ensures xs != [] ==> A.Aggregate(A.Sum, xs) == Real(s) && Sums(xs, partial, s)
    ensures xs != [] ==> A.Aggregate(A.Min, xs) == Real(m) && IsLeast(xs, m)
    ensures xs != [] ==> A.Aggregate(A.Max, xs) == Real(n) && IsGreatest(xs, n)
  {
    if xs == [] { return [], 0.0, 0.0, 0.0; }
    partial := TotalSums(xs);
    s, m, n := A.Total(xs), A.Least(xs), A.Greatest(xs);
    A.LeastIsLeast(xs);
  }

  /** The value `f` gives the aggregate a number. */
  ghost predicate GivesNumber(parse: Parse, f: A.Fetched, x: real) { f.Got? && L.StandsFor(parse, f.cell, x) }

  ghost predicate HasNumber(parse: Parse, f: A.Fetched) { f.Got? && L.IsNumber(parse, f.cell) }

  /** `at` lists, in order, the rows that give a number, and `xs` the numbers they give. */
  ghost predicate NumbersAt(parse: Parse, fs: seq<A.Fetched>, xs: seq<real>, at: seq<nat>) {
    && L.Increasing(at) && |at| == |xs|
    && (forall i :: 0 <= i < |at| ==> at[i] < |fs| && GivesNumber(parse, fs[at[i]], xs[i]))
    && forall k: nat :: k < |fs| && HasNumber(parse, fs[k]) ==> k in at
  }

  lemma {:induction false} NumberOrNot(parse: Parse, f: A.Fetched)
    ensures f.Got? && NumericValue(parse, f.cell).Num? <==> HasNumber(parse, f)
    ensures HasNumber(parse, f) ==> GivesNumber(parse, f, NumericValue(parse, f.cell).r)
  {
    if f.Got? && NumericValue(parse, f.cell).Num? { L.NumbersAre(parse, f.cell, NumericValue(parse, f.cell).r); }
    if f.Got? {
      if x: real :| L.StandsFor(parse, f.cell, x) { L.NumbersAre(parse, f.cell, x); }
    }
  }

  /** An aggregate without DISTINCT takes exactly the numbers of the rows that give one, in order. */
  lemma {:induction false} NumbersTaken(parse: Parse, fs: seq<A.Fetched>) returns (at: seq<nat>)
    ensures NumbersAt(parse, fs, A.Numbers(parse, fs), at)
  {
    if fs == [] { return []; }
    var n: nat := |fs| - 1;
    var init, f, xs := fs[..n], fs[n], A.Numbers(parse, fs[..n]);
    assert fs == init + [f];
    at := NumbersTaken(parse, init);
    NumberOrNot(parse, f);
    if HasNumber(parse, f) {
      OneMoreNumber(parse, init, f, xs, NumericValue(parse, f.cell).r, at);
      at := at + [n];
    } else {
      NoMoreNumber(parse, init, f, xs, at);
      Seqs.Empty(xs);
    }
  }

  lemma {:induction false} OneMoreNumber(
    parse: Parse, fs: seq<A.Fetched>, f: A.Fetched, xs: seq<real>, x: real, at: seq<nat>)
    requires NumbersAt(parse, fs, xs, at) && GivesNumber(parse, f, x)
    ensures NumbersAt(parse, fs + [f], xs + [x], at + [|fs|])
  {
    var fs', xs', at' := fs + [f], xs + [x], at + [|fs|];
    assert forall i :: 0 <= i < |at| ==> at[i] < |fs|;
    L.OneMore(at, |fs|);
    forall i | 0 <= i < |at'| ensures at'[i] < |fs'| && GivesNumber(parse, fs'[at'[i]], xs'[i]) {
      if i < |at| { assert fs'[at[i]] == fs[at[i]]; }
    }
    forall k: nat | k < |fs'| && HasNumber(parse, fs'[k]) ensures k in at' {
      if k < |fs| { assert fs'[k] == fs[k]; }
    }
  }

  lemma {:induction false} NoMoreNumber(parse: Parse, fs: seq<A.Fetched>, f: A.Fetched, xs: seq<real>, at: seq<nat>)
    requires NumbersAt(parse, fs, xs, at) && !HasNumber(parse, f)
    ensures NumbersAt(parse, fs + [f], xs, at)
  {
    var fs' := fs + [f];
    forall i | 0 <= i < |at| ensures at[i] < |fs'| && GivesNumber(parse, fs'[at[i]], xs[i]) {
      assert fs'[at[i]] == fs[at[i]];
    }
    forall k: nat | k < |fs'| && HasNumber(parse, fs'[k]) ensures k in at {
      if k < |fs| { assert fs'[k] == fs[k]; }
    }
  }

  /** The texts the value of some row is shown as. */
  ghost predicate Rendered(render: Cell -> string, fs: seq<A.Fetched>, s: string) {
    exists k :: 0 <= k < |fs| && fs[k].Got? && fs[k].cell != Null && render(fs[k].cell) == s
  }

  lemma {:induction false} Listing(s: set<string>) returns (xs: seq<string>)
    ensures Seqs.Distinct(xs) && |xs| == |s| && forall x :: x in xs <==> x in s
    decreases |s|
  {
    if s == {} { return []; }
    var x :| x in s;
    var rest := Listing(s - {x});
    xs := [x] + rest;
    forall i, j | 0 <= i < j < |xs| ensures xs[i] != xs[j] { assert xs[j] == rest[j - 1] && rest[j - 1] in rest; }
  }

  /** COUNT is the number of rows; COUNT(DISTINCT) is the number of different texts the values are shown as. */
  lemma {:induction false} CountsAre(render: Cell -> string, fs: seq<A.Fetched>) returns (texts: seq<string>)
    ensures A.CountOf(render, false, fs) == |fs|
    ensures Seqs.Distinct(texts) && A.CountOf(render, true, fs) == |texts|
    ensures forall s :: s in texts <==> Rendered(render, fs, s)
  {
    texts := Listing(A.Texts(render, fs));
    forall s ensures s in A.Texts(render, fs) <==> Rendered(render, fs, s) {
      if f :| f in fs && f.Got? && f.cell != Null && render(f.cell) == s {
        var k :| 0 <= k < |fs| && fs[k] == f;
      }
      if k :| 0 <= k < |fs| && fs[k].Got? && fs[k].cell != Null && render(fs[k].cell) == s { assert fs[k] in fs; }
    }
  }

  /** The search of SELECT, or of HAVING, stops at this table. */
  predicate Stops(slot: A.Slot, having: bool) { slot.Holds? || (!having && slot.Broken?) }

  /** Table `k` is the first, from the `i`-th on, at which the search stops. */
  predicate StopsAt(v: A.View, having: bool, i: nat, k: nat) {
    && i <= k < |v.tables| && Stops(v.tables[k], having)
    && forall j :: i <= j < k ==> !Stops(v.tables[j], having)
  }

  predicate NoStop(v: A.View, having: bool, i: nat) {
    forall j :: i <= j < |v.tables| ==> !Stops(v.tables[j], having)
  }

  /** The value of a row is that of the first table with one, and that of the column name where no table has one. */
  lemma {:induction false} FetchIs(v: A.View, having: bool, i: nat)
    ensures var r := if having then A.FetchInHaving(v, i) else A.FetchInSelect(v, i);
      && (forall k: nat :: StopsAt(v, having, i, k) ==>
            r == if v.tables[k].Holds? then A.Got(v.tables[k].cell) else A.Fails)
      && (NoStop(v, having, i) ==> r == if v.fallback.Done? then A.Got(v.fallback.value) else A.Skipped)
    decreases |v.tables| - i
  {
    if i < |v.tables| {
      if Stops(v.tables[i], having) {
        forall k: nat | StopsAt(v, having, i, k) ensures k == i {}
      } else {
        FetchIs(v, having, i + 1);
        forall k: nat | StopsAt(v, having, i, k) ensures StopsAt(v, having, i + 1, k) {}
      }
    }
  }

  // -------------------------------------------------------------------- UNION

  /** A union with ORDER BY and LIMIT sorts the rows of both operands and then takes the page. */
  lemma {:induction false} UnionPageMeans(
    key: N.ResultRow -> string, q: N.Query, sort: seq<N.ResultRow> -> seq<N.ResultRow>, bare: N.Query)
    requires q.Union? && q.tail.order.Some? && q.tail.order.value == sort && q.tail.limit.Limit?
    requires bare == q.(tail := q.tail.(order := None, limit := E.NoLimit))
    ensures N.Evaluate(key, q).Done? <==> N.Evaluate(key, bare).Done?
    ensures N.Evaluate(key, q).Done? ==>
      L.IsPage(q.tail.limit.offset, q.tail.limit.count, sort(N.Evaluate(key, bare).value), N.Evaluate(key, q).value)
  {
    if N.Evaluate(key, bare).Done? {
      L.LimitTakes(q.tail.limit.offset, q.tail.limit.count, sort(N.Evaluate(key, bare).value));
    }
  }
}
