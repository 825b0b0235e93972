/**
 Aggregate functions (pkg/core/query.go). SELECT without GROUP BY, SELECT with GROUP BY and HAVING each have a loop of
 their own; the first two have the same body.
 */
module Aggregates {
  import opened Cells
  import opened Dedup
  import Seqs

  // --------------------------------------------------- one row's value

  /** The column in one table of a row: no such column, an empty slot, a value that does not convert, or a value. */
  datatype Slot = Absent | Unset | Broken | Holds(cell: Cell)

  /** A row as an aggregate over a column sees it: its tables, and what evaluating the column name gives. */
  datatype View = View(tables: seq<Slot>, fallback: Outcome<Cell>)

  /** What the row contributes: a value, nothing, or the failure of the whole query. */
  datatype Fetched = Got(cell: Cell) | Skipped | Fails

  function Evaluated(v: View): Fetched { if v.fallback.Done? then Got(v.fallback.value) else Skipped }

  /** SELECT: the first table with a value decides; a value that does not convert fails the query. */
  function FetchInSelect(v: View, i: nat): Fetched
    decreases |v.tables| - i
  {
    if i >= |v.tables| then Evaluated(v)
    else match v.tables[i] case Broken => Fails case Holds(c) => Got(c) case _ => FetchInSelect(v, i + 1)
  }

  /** HAVING: a value that does not convert is passed over. */
  function FetchInHaving(v: View, i: nat): Fetched
    decreases |v.tables| - i
  {
    if i >= |v.tables| then Evaluated(v)
    else match v.tables[i] case Holds(c) => Got(c) case _ => FetchInHaving(v, i + 1)
  }

  predicate Converts(v: View) { Broken !in v.tables }

  lemma {:induction false} FetchesAgree(v: View, i: nat)
    requires Converts(v)
    ensures FetchInSelect(v, i) == FetchInHaving(v, i) && !FetchInSelect(v, i).Fails?
    decreases |v.tables| - i
  {
    if i < |v.tables| {
      assert v.tables[i] in v.tables;
      FetchesAgree(v, i + 1);
    }
  }

  /** The column is in one table of the row, whichever that is. */
  ghost predicate InOneTable(v: View, k: nat) {
    k < |v.tables| && v.tables[k].Holds? && forall j :: 0 <= j < |v.tables| && j != k ==> !v.tables[j].Holds?
  }

  /** Then the order in which the row's tables are visited does not matter. */
  lemma {:induction false} OneTableDecides(v: View, k: nat, i: nat)
    requires Converts(v) && InOneTable(v, k) && i <= k
    ensures FetchInSelect(v, i) == Got(v.tables[k].cell)
    decreases k - i
  {
    assert v.tables[i] in v.tables;
    if i < k { OneTableDecides(v, k, i + 1); }
  }

  method FetchForSelect(v: View) returns (r: Fetched)
    ensures r == FetchInSelect(v, 0)
  {
    for i := 0 to |v.tables|
      invariant FetchInSelect(v, 0) == FetchInSelect(v, i)
    {
      match v.tables[i] {
        case Broken => return Fails;
        case Holds(c) => return Got(c);
        case _ =>
      }
    }
    r := Evaluated(v);
  }

  method FetchForHaving(v: View) returns (r: Fetched)
    ensures r == FetchInHaving(v, 0)
  {
    for i := 0 to |v.tables|
      invariant FetchInHaving(v, 0) == FetchInHaving(v, i)
    {
      if v.tables[i].Holds? { return Got(v.tables[i].cell); }
    }
    r := Evaluated(v);
  }

  // -------------------------------------------------- what is aggregated

  datatype Function = Sum | Avg | Min | Max

  function Identity(x: real): real { x }

  /** The numbers a list of fetched values gives, in order. */
  function Numbers(parse: Parse, fs: seq<Fetched>): seq<real> {
    if fs == [] then []
    else
      var f := fs[|fs| - 1];
      Numbers(parse, fs[..|fs| - 1]) +
      if f.Got? && NumericValue(parse, f.cell).Num? then [NumericValue(parse, f.cell).r] else []
  }

  /** The numbers that count: all of them or, with DISTINCT, the first occurrence of each. */
  function Counted(distinct: bool, xs: seq<real>): seq<real> { if distinct then Keep(Identity, xs) else xs }

  function Total(xs: seq<real>): real { if xs == [] then 0.0 else Total(xs[..|xs| - 1]) + xs[|xs| - 1] }

  function Least(xs: seq<real>): real
    requires xs != []
  {
    var last := xs[|xs| - 1];
    if |xs| == 1 then last else var m := Least(xs[..|xs| - 1]); if last < m then last else m
  }

  function Greatest(xs: seq<real>): real
    requires xs != []
  {
    var last := xs[|xs| - 1];
    if |xs| == 1 then last else var m := Greatest(xs[..|xs| - 1]); if last > m then last else m
  }

  /** SQL's answer: NULL over no numbers. */
  function Aggregate(f: Function, xs: seq<real>): Cell {
    if xs == [] then Null
    else
      match f
      case Sum => Real(Total(xs))
      case Avg => Real(Total(xs) / |xs| as real)
      case Min => Real(Least(xs))
      case Max => Real(Greatest(xs))
  }

  lemma {:induction false} TotalSnoc(xs: seq<real>, x: real)
    ensures Total(xs + [x]) == Total(xs) + x
    ensures xs != [] ==> Least(xs + [x]) == if x < Least(xs) then x else Least(xs)
    ensures xs != [] ==> Greatest(xs + [x]) == if x > Greatest(xs) then x else Greatest(xs)
    ensures xs == [] ==> Least(xs + [x]) == x == Greatest(xs + [x])
  {
    assert (xs + [x])[..|xs|] == xs;
  }

  // -------------------------------------------------------------- the loop

  datatype Tally = Tally(total: real, min: real, max: real, count: nat, seen: set<real>)

  /** The running totals over the numbers taken so far. */
  ghost predicate Tallies(t: Tally, distinct: bool, xs: seq<real>) {
    var taken := Counted(distinct, xs);
    && t.count == |taken| && t.total == Total(taken)
    && (taken != [] ==> t.min == Least(taken) && t.max == Greatest(taken))
    && (distinct ==> t.seen == KeySet(Identity, xs))
  }

  /** One number. */
  method Take(t: Tally, distinct: bool, num: real, first: bool, ghost xs: seq<real>) returns (r: Tally)
    requires Tallies(t, distinct, xs) && (first ==> xs == [])
    ensures Tallies(r, distinct, xs + [num])
  {
    KeepSnoc(Identity, {}, xs, num);
    ghost var taken := Counted(distinct, xs);
    if distinct && num in t.seen {
      Seqs.Empty(taken);
      return t;
    }
    TotalSnoc(taken, num);
    var restart := first || t.count == 0;
    var min, max := if restart then num else t.min, if restart then num else t.max;
    min := if num < min then num else min;
    max := if num > max then num else max;
    r := Tally(t.total + num, min, max, t.count + 1, if distinct then t.seen + {num} else t.seen);
    assert Counted(distinct, xs + [num]) == taken + [num];
  }

  method Answer(f: Function, t: Tally, ghost distinct: bool, ghost xs: seq<real>) returns (r: Cell)
    requires Tallies(t, distinct, xs)
    ensures r == Aggregate(f, Counted(distinct, xs))
  {
    if t.count == 0 { return Null; }
    match f {
      case Sum => return Real(t.total);
      case Avg => return Real(t.total / t.count as real);
      case Min => return Real(t.min);
      case Max => return Real(t.max);
    }
  }

  function SelectFetches(views: seq<View>): seq<Fetched> {
    seq(|views|, k requires 0 <= k < |views| => FetchInSelect(views[k], 0))
  }

  function HavingFetches(views: seq<View>): seq<Fetched> {
    seq(|views|, k requires 0 <= k < |views| => FetchInHaving(views[k], 0))
  }

  lemma {:induction false} NumbersStep(parse: Parse, fs: seq<Fetched>, i: nat)
    requires i < |fs|
    ensures Numbers(parse, fs[..i + 1]) == Numbers(parse, fs[..i]) +
      if fs[i].Got? && NumericValue(parse, fs[i].cell).Num? then [NumericValue(parse, fs[i].cell).r] else []
    ensures i == 0 ==> Numbers(parse, fs[..i]) == []
  {
    assert fs[..i + 1][..i] == fs[..i];
  }

  /** SUM, AVG, MIN and MAX in the SELECT list, of an ungrouped query and of one group. */
  method AggregateInSelect(parse: Parse, f: Function, distinct: bool, views: seq<View>) returns (r: Result<Cell>)
    ensures var fs := SelectFetches(views);
      r == if Fails in fs then Err else Ok(Aggregate(f, Counted(distinct, Numbers(parse, fs))))
  {
    ghost var fs := SelectFetches(views);
    var t := Tally(0.0, 0.0, 0.0, 0, {});
    for i := 0 to |views|
      invariant Tallies(t, distinct, Numbers(parse, fs[..i]))
      invariant Fails !in fs[..i]
    {
      var fetched := FetchForSelect(views[i]);
      assert fs[i] == fetched;
      NumbersStep(parse, fs, i);
      if fetched.Fails? { return Err; }
      Seqs.Unsnoc(fs, i);
      Seqs.Empty(Numbers(parse, fs[..i]));
      if fetched.Got? && NumericValue(parse, fetched.cell).Num? {
        t := Take(t, distinct, NumericValue(parse, fetched.cell).r, i == 0, Numbers(parse, fs[..i]));
      }
    }
    assert fs[..|views|] == fs;
    var answer := Answer(f, t, distinct, Numbers(parse, fs));
    r := Ok(answer);
  }

  /** The same functions in HAVING. */
  method AggregateInHaving(parse: Parse, f: Function, distinct: bool, views: seq<View>) returns (r: Cell)
    ensures r == Aggregate(f, Counted(distinct, Numbers(parse, HavingFetches(views))))
  {
    ghost var fs := HavingFetches(views);
    var t := Tally(0.0, 0.0, 0.0, 0, {});
    for i := 0 to |views|
      invariant Tallies(t, distinct, Numbers(parse, fs[..i]))
    {
      var fetched := FetchForHaving(views[i]);
      assert fs[i] == fetched;
      NumbersStep(parse, fs, i);
      Seqs.Empty(Numbers(parse, fs[..i]));
      if fetched.Got? && NumericValue(parse, fetched.cell).Num? {
        t := Take(t, distinct, NumericValue(parse, fetched.cell).r, i == 0, Numbers(parse, fs[..i]));
      }
    }
    assert fs[..|views|] == fs;
    r := Answer(f, t, distinct, Numbers(parse, fs));
  }

  /** COUNT counts rows, NULLs and all; COUNT(DISTINCT c) counts the distinct texts of the non-NULL values. */
  function CountOf(render: Cell -> string, distinct: bool, fs: seq<Fetched>): nat {
    if distinct then |Texts(render, fs)| else |fs|
  }

  function Texts(render: Cell -> string, fs: seq<Fetched>): set<string> {
    set f | f in fs && f.Got? && f.cell != Null :: render(f.cell)
  }

  method CountInSelect(render: Cell -> string, distinct: bool, views: seq<View>) returns (r: Result<nat>)
    ensures var fs := SelectFetches(views);
      r == if distinct && Fails in fs then Err else Ok(CountOf(render, distinct, fs))
  {
    if !distinct { return Ok(|views|); }
    ghost var fs := SelectFetches(views);
    var seen: set<string> := {};
    for i := 0 to |views|
      invariant seen == Texts(render, fs[..i]) && Fails !in fs[..i]
    {
      var fetched := FetchForSelect(views[i]);
      assert fs[i] == fetched;
      if fetched.Fails? { return Err; }
      Seqs.Unsnoc(fs, i);
      if fetched.Got? && fetched.cell != Null { seen := seen + {render(fetched.cell)}; }
    }
    assert fs[..|views|] == fs;
    r := Ok(|seen|);
  }

  method CountInHaving(render: Cell -> string, distinct: bool, views: seq<View>) returns (r: nat)
    ensures r == CountOf(render, distinct, HavingFetches(views))
  {
    if !distinct { return |views|; }
    ghost var fs := HavingFetches(views);
    var seen: set<string> := {};
    for i := 0 to |views|
      invariant seen == Texts(render, fs[..i])
    {
      var fetched := FetchForHaving(views[i]);
      assert fs[i] == fetched;
      Seqs.Unsnoc(fs, i);
      if fetched.Got? && fetched.cell != Null { seen := seen + {render(fetched.cell)}; }
    }
    assert fs[..|views|] == fs;
    r := |seen|;
  }

  // ------------------------------------------------------------ the theorems

  /** The same row with its tables in another visiting order, as each loop over a row's map has one of its own. */
  predicate SameRow(v: View, w: View) { multiset(v.tables) == multiset(w.tables) && v.fallback == w.fallback }

  /** Every value converts, and the tables that have one agree on it; the column in one table is the usual case. */
  predicate Settled(v: View) {
    && Converts(v)
    && forall i, j :: 0 <= i < |v.tables| && 0 <= j < |v.tables| && v.tables[i].Holds? && v.tables[j].Holds?
         ==> v.tables[i] == v.tables[j]
  }

  lemma {:induction false} SameTables(v: View, w: View)
    requires SameRow(v, w)
    ensures forall t :: t in v.tables <==> t in w.tables
  {
    forall t ensures t in v.tables <==> t in w.tables { assert t in multiset(v.tables) <==> t in multiset(w.tables); }
  }

  lemma {:induction false} SettledStays(v: View, w: View)
    requires Settled(v) && SameRow(v, w)
    ensures Settled(w)
  {
    SameTables(v, w);
    forall i, j | 0 <= i < |w.tables| && 0 <= j < |w.tables| && w.tables[i].Holds? && w.tables[j].Holds?
      ensures w.tables[i] == w.tables[j]
    {
      assert w.tables[i] in v.tables && w.tables[j] in v.tables;
    }
  }

  /** A settled row with a value gives that value to both loops. */
  lemma {:induction false} SettledFetch(v: View, i: nat, k: nat)
    requires Settled(v) && i <= k < |v.tables| && v.tables[k].Holds?
    ensures FetchInSelect(v, i) == Got(v.tables[k].cell) == FetchInHaving(v, i)
    decreases k - i
  {
    assert v.tables[i] in v.tables;
    if !v.tables[i].Holds? { SettledFetch(v, i + 1, k); }
  }

  /** A row without a value gives what evaluating the column name gives. */
  lemma {:induction false} EmptyFetch(v: View, i: nat)
    requires Converts(v) && forall j :: i <= j < |v.tables| ==> !v.tables[j].Holds?
    ensures FetchInSelect(v, i) == Evaluated(v) == FetchInHaving(v, i)
    decreases |v.tables| - i
  {
    if i < |v.tables| {
      assert v.tables[i] in v.tables;
      EmptyFetch(v, i + 1);
    }
  }

  lemma {:induction false} SettledRowsAgree(v: View, w: View)
    requires Settled(v) && SameRow(v, w)
    ensures FetchInSelect(v, 0) == FetchInHaving(w, 0) && !FetchInSelect(v, 0).Fails?
  {
    SameTables(v, w);
    SettledStays(v, w);
    if k: nat :| k < |v.tables| && v.tables[k].Holds? {
      assert v.tables[k] in w.tables;
      var l: nat :| l < |w.tables| && w.tables[l] == v.tables[k];
      SettledFetch(v, 0, k);
      SettledFetch(w, 0, l);
    } else {
      forall j | 0 <= j < |w.tables| ensures !w.tables[j].Holds? { assert w.tables[j] in v.tables; }
      EmptyFetch(v, 0);
      EmptyFetch(w, 0);
    }
  }

  /** The row with table `k` visited first. */
  lemma {:induction false} VisitedFirst(v: View, k: nat) returns (w: View)
    requires k < |v.tables|
    ensures SameRow(v, w) && w.tables != [] && w.tables[0] == v.tables[k]
  {
    var l, r := v.tables[..k], v.tables[k + 1..];
    assert v.tables == l + [v.tables[k]] + r;
    w := View([v.tables[k]] + (l + r), v.fallback);
  }

  /** In a row that is not settled some two visiting orders give SELECT and HAVING different values. */
  lemma {:induction false} UnsettledRowsDiffer(v: View) returns (a: View, b: View)
    requires !Settled(v)
    ensures SameRow(v, a) && SameRow(v, b) && FetchInSelect(a, 0) != FetchInHaving(b, 0)
  {
    if !Converts(v) {
      var k: nat :| k < |v.tables| && v.tables[k] == Broken;
      a := VisitedFirst(v, k);
      b := v;
      HavingNeverFails(v, 0);
    } else {
      var i: nat, j: nat :|
        i < |v.tables| && j < |v.tables| && v.tables[i].Holds? && v.tables[j].Holds? && v.tables[i] != v.tables[j];
      a := VisitedFirst(v, i);
      b := VisitedFirst(v, j);
    }
  }

  lemma {:induction false} HavingNeverFails(v: View, i: nat)
    ensures !FetchInHaving(v, i).Fails?
    decreases |v.tables| - i
  {
    if i < |v.tables| && !v.tables[i].Holds? { HavingNeverFails(v, i + 1); }
  }

  /** The same rows, each with its tables in some visiting order. */
  ghost predicate SameRows(views: seq<View>, views': seq<View>) {
    |views| == |views'| && forall k :: 0 <= k < |views| ==> SameRow(views[k], views'[k])
  }

  /** Whatever orders the loops of SELECT and HAVING visit the tables in, they take the same values. */
  ghost predicate AgreeInEveryOrder(views: seq<View>) {
    forall a, b :: SameRows(views, a) && SameRows(views, b) ==> SelectFetches(a) == HavingFetches(b)
  }

  lemma {:induction false} SettledListsAgree(views: seq<View>, a: seq<View>, b: seq<View>)
    requires (forall k :: 0 <= k < |views| ==> Settled(views[k])) && SameRows(views, a) && SameRows(views, b)
    ensures SelectFetches(a) == HavingFetches(b) && Fails !in SelectFetches(a)
  {
    forall k | 0 <= k < |views| ensures FetchInSelect(a[k], 0) == FetchInHaving(b[k], 0) != Fails {
      SettledStays(views[k], a[k]);
      SettledRowsAgree(a[k], b[k]);
    }
  }

  /**
   The loops of SELECT and HAVING take the same values, whatever orders they visit the tables of each row in, if and
   only if every row is settled.
   */
  lemma {:induction false} LoopsAgree(views: seq<View>)
    ensures AgreeInEveryOrder(views) <==> forall k :: 0 <= k < |views| ==> Settled(views[k])
  {
    if forall k :: 0 <= k < |views| ==> Settled(views[k]) {
      forall a, b | SameRows(views, a) && SameRows(views, b) ensures SelectFetches(a) == HavingFetches(b) {
        SettledListsAgree(views, a, b);
      }
    } else {
      var k: nat :| k < |views| && !Settled(views[k]);
      var v, w := UnsettledRowsDiffer(views[k]);
      var a, b := views[k := v], views[k := w];
      assert SameRows(views, a) && SameRows(views, b);
      assert SelectFetches(a)[k] == FetchInSelect(v, 0) && HavingFetches(b)[k] == FetchInHaving(w, 0);
    }
  }

  /**
   Over settled rows SELECT does not fail, and its aggregate and its COUNT are those HAVING computes, whatever the
   visiting orders.
   */
  lemma {:induction false} AggregatesAgree(
    parse: Parse, render: Cell -> string, f: Function, distinct: bool, views: seq<View>, a: seq<View>, b: seq<View>)
    requires (forall k :: 0 <= k < |views| ==> Settled(views[k])) && SameRows(views, a) && SameRows(views, b)
    ensures Fails !in SelectFetches(a)
    ensures Aggregate(f, Counted(distinct, Numbers(parse, SelectFetches(a)))) ==
            Aggregate(f, Counted(distinct, Numbers(parse, HavingFetches(b))))
    ensures CountOf(render, distinct, SelectFetches(a)) == CountOf(render, distinct, HavingFetches(b))
  {
    SettledListsAgree(views, a, b);
  }

  lemma {:induction false} LeastIsLeast(xs: seq<real>)
    requires xs != []
    ensures Least(xs) in xs && Greatest(xs) in xs
    ensures forall x :: x in xs ==> Least(xs) <= x <= Greatest(xs)
  {
    if |xs| > 1 {
      var init := xs[..|xs| - 1];
      LeastIsLeast(init);
      assert xs == init + [xs[|xs| - 1]];
    }
  }

  lemma {:induction false} TotalBounds(xs: seq<real>, lo: real, hi: real)
    requires forall k :: 0 <= k < |xs| ==> lo <= xs[k] <= hi
    ensures lo * |xs| as real <= Total(xs) <= hi * |xs| as real
  {
    if xs != [] {
      var init, x := xs[..|xs| - 1], xs[|xs| - 1];
      TotalBounds(init, lo, hi);
      OneMore(lo, |init|);
      OneMore(hi, |init|);
    }
  }

  lemma {:induction false} OneMore(x: real, n: nat)
    ensures x * (n + 1) as real == x * n as real + x
  {
  }

  lemma {:induction false} Quotient(x: real, n: real)
    requires n > 0.0
    ensures x * n / n == x
  {
  }

  lemma {:induction false} NonNegative(x: real, n: real)
    requires n > 0.0 && x >= 0.0
    ensures x / n >= 0.0
  {
  }

  lemma {:induction false} Between(lo: real, hi: real, total: real, n: real)
    requires n > 0.0 && lo * n <= total <= hi * n
    ensures lo <= total / n <= hi
  {
    Quotient(lo, n);
    Quotient(hi, n);
    NonNegative(total - lo * n, n);
    NonNegative(hi * n - total, n);
    assert total / n - lo * n / n == (total - lo * n) / n && hi * n / n - total / n == (hi * n - total) / n;
  }

  /** MIN <= AVG <= MAX. */
  lemma {:induction false} AverageIsBetween(xs: seq<real>)
    requires xs != []
    ensures Least(xs) <= Total(xs) / |xs| as real <= Greatest(xs)
  {
    LeastIsLeast(xs);
    forall k | 0 <= k < |xs| ensures Least(xs) <= xs[k] <= Greatest(xs) { assert xs[k] in xs; }
    TotalBounds(xs, Least(xs), Greatest(xs));
    Between(Least(xs), Greatest(xs), Total(xs), |xs| as real);
  }

  /** MIN and MAX do not notice DISTINCT, and DISTINCT leaves no number twice. */
  lemma {:induction false} DistinctExtremes(xs: seq<real>)
    requires xs != []
    ensures var c := Counted(true, xs);
      && c != [] && Least(c) == Least(xs) && Greatest(c) == Greatest(xs)
      && forall i, j :: 0 <= i < j < |c| ==> c[i] != c[j]
  {
    var c := Counted(true, xs);
    SameMembers(true, xs);
    KeepsFirst(Identity, xs);
    LeastIsLeast(c);
    LeastIsLeast(xs);
    forall i, j | 0 <= i < j < |c| ensures c[i] != c[j] { KeepDistinct(Identity, {}, xs, i, j); }
  }

  lemma {:induction false} SameMembers(distinct: bool, xs: seq<real>)
    ensures forall x :: x in Counted(distinct, xs) <==> x in xs
  {
    KeepKeys(Identity, {}, xs);
    forall x ensures x in Keep(Identity, xs) <==> x in xs {
      assert x in KeySet(Identity, xs) <==> x in xs;
      assert x in KeySet(Identity, Keep(Identity, xs)) <==> x in Keep(Identity, xs);
    }
  }

  lemma {:induction false} TotalJoin(xs: seq<real>, ys: seq<real>)
    ensures Total(xs + ys) == Total(xs) + Total(ys)
  {
    if ys == [] {
      Seqs.Empty(xs);
    } else {
      var init, y := ys[..|ys| - 1], ys[|ys| - 1];
      assert xs + ys == (xs + init) + [y];
      TotalSnoc(xs + init, y);
      TotalJoin(xs, init);
    }
  }

  lemma {:induction false} Around(l: seq<real>, x: real, r: seq<real>)
    ensures Total(l + ([x] + r)) == Total(l + r) + x
  {
    TotalJoin(l, [x] + r);
    TotalJoin([x], r);
    TotalJoin(l, r);
    assert Total([x]) == Total([x][..0]) + x;
  }

  /** A sum does not depend on the order of the rows. */
  lemma {:induction false} TotalPermuted(xs: seq<real>, ys: seq<real>)
    requires multiset(xs) == multiset(ys)
    ensures Total(xs) == Total(ys)
    decreases |xs|
  {
    if xs == [] {
      assert |ys| == |multiset(ys)| == 0;
    } else {
      var n := |xs| - 1;
      var init, x := xs[..n], xs[n];
      assert xs == init + [x];
      assert multiset(xs) == multiset(init) + multiset{x} && x in multiset(ys);
      var l, r := Seqs.TakeOut(ys, x);
      TotalPermuted(init, l + r);
      Around(l, x, r);
    }
  }

  /** The rows of several groups, one after another. */
  function Flat(groups: seq<seq<real>>): seq<real> {
    if groups == [] then [] else Flat(groups[..|groups| - 1]) + groups[|groups| - 1]
  }

  /** Two aggregates of the same kind put together; NULL stands for no numbers. AVG does not combine this way. */
  function Both(f: Function, a: Cell, b: Cell): Cell {
    if !a.Real? then b
    else if !b.Real? then a
    else
      match f
      case Min => Real(if b.r < a.r then b.r else a.r)
      case Max => Real(if b.r > a.r then b.r else a.r)
      case _ => Real(a.r + b.r)
  }

  lemma {:induction false} AggregateSnoc(f: Function, xs: seq<real>, x: real)
    requires f != Avg
    ensures Aggregate(f, xs + [x]) == Both(f, Aggregate(f, xs), Real(x)) && Aggregate(f, [x]) == Real(x)
  {
    TotalSnoc(xs, x);
    TotalSnoc([], x);
    Seqs.Empty([x]);
  }

  lemma {:induction false} AggregateJoin(f: Function, xs: seq<real>, ys: seq<real>)
    requires f != Avg
    ensures Aggregate(f, xs + ys) == Both(f, Aggregate(f, xs), Aggregate(f, ys))
  {
    if ys == [] {
      Seqs.Empty(xs);
    } else {
      var init, y := ys[..|ys| - 1], ys[|ys| - 1];
      assert ys == init + [y];
      Seqs.Assoc(xs, init, [y]);
      AggregateJoin(f, xs, init);
      AggregateSnoc(f, xs + init, y);
      AggregateSnoc(f, init, y);
    }
  }

  /** An aggregate does not depend on the order of the rows. */
  lemma {:induction false} AggregatePermuted(f: Function, xs: seq<real>, ys: seq<real>)
    requires multiset(xs) == multiset(ys)
    ensures Aggregate(f, xs) == Aggregate(f, ys)
  {
    assert |xs| == |multiset(xs)| == |multiset(ys)| == |ys|;
    if xs != [] {
      TotalPermuted(xs, ys);
      forall x ensures x in xs <==> x in ys { assert x in multiset(xs) <==> x in multiset(ys); }
      LeastIsLeast(xs);
      LeastIsLeast(ys);
    }
  }

  /**
   What a query over the groups' answers would aggregate: one value for each group, NULL for a group without numbers.
   */
  function Answers(f: Function, groups: seq<seq<real>>): seq<Fetched> {
    seq(|groups|, k requires 0 <= k < |groups| => Got(Aggregate(f, groups[k])))
  }

  /**
   SUM of the groups' SUMs, MIN of their MINs and MAX of their MAXs are those of all rows, in whatever order the groups
   put the rows; groups without a number answer NULL and do not count.
   */
  lemma {:induction false} GroupsRecombine(parse: Parse, f: Function, groups: seq<seq<real>>, all: seq<real>)
    requires multiset(all) == multiset(Flat(groups)) && f != Avg
    ensures Aggregate(f, Numbers(parse, Answers(f, groups))) == Aggregate(f, all)
  {
    AggregatePermuted(f, all, Flat(groups));
    FlatRecombines(parse, f, groups);
  }

  lemma {:induction false} FlatRecombines(parse: Parse, f: Function, groups: seq<seq<real>>)
    requires f != Avg
    ensures Aggregate(f, Numbers(parse, Answers(f, groups))) == Aggregate(f, Flat(groups))
  {
    if groups != [] {
      var n := |groups| - 1;
      var init, last := groups[..n], groups[n];
      FlatRecombines(parse, f, init);
      assert Answers(f, groups)[..n] == Answers(f, init);
      var nums := Numbers(parse, Answers(f, init));
      AggregateJoin(f, Flat(init), last);
      if last == [] {
        Seqs.Empty(nums);
      } else {
        AggregateSnoc(f, nums, Aggregate(f, last).r);
      }
    }
  }
}
