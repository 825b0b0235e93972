/** GROUP BY (pkg/core/query.go): the loop that puts rows into groups, and what aggregates over groups add up to. */
module Grouping {
  import opened Cells
  import opened GroupKeys
  import Aggregates
  import Seqs

  /** What the GROUP BY expressions make of a row: a list of rendered values, nothing for a NULL, or a failure. */
  datatype RowKey = Grouped(parts: seq<string>) | Dropped | Fails

  /** The expressions are evaluated in turn up to the first NULL or failure. */
  function KeyFrom(render: Cell -> string, values: seq<Outcome<Cell>>, i: nat): RowKey
    decreases |values| - i
  {
    if i >= |values| then Grouped([])
    else if !values[i].Done? then Fails
    else if values[i].value.Null? then Dropped
    else
      var rest := KeyFrom(render, values, i + 1);
      if rest.Grouped? then Grouped([render(values[i].value)] + rest.parts) else rest
  }

  /** A row without failures is dropped when a value is NULL, and otherwise has all its values rendered. */
  lemma {:induction false} KeyFromIs(render: Cell -> string, values: seq<Outcome<Cell>>, i: nat)
    requires i <= |values| && forall k :: 0 <= k < |values| ==> values[k].Done?
    ensures var key := KeyFrom(render, values, i);
      && !key.Fails?
      && (key.Dropped? <==> exists k :: i <= k < |values| && values[k].value.Null?)
      && (key.Grouped? ==> |key.parts| == |values| - i)
      && (key.Grouped? ==> forall k :: i <= k < |values| ==> key.parts[k - i] == render(values[k].value))
    decreases |values| - i
  {
    if i < |values| { KeyFromIs(render, values, i + 1); }
  }

  method KeyOf(render: Cell -> string, values: seq<Outcome<Cell>>) returns (r: RowKey)
    ensures r == KeyFrom(render, values, 0)
  {
    var parts: seq<string> := [];
    for i := 0 to |values|
      invariant KeyFrom(render, values, 0) ==
        var rest := KeyFrom(render, values, i); if rest.Grouped? then Grouped(parts + rest.parts) else rest
    {
      if !values[i].Done? { return Fails; }
      if values[i].value.Null? { return Dropped; }
      var part := render(values[i].value);
      ghost var rest := KeyFrom(render, values, i + 1);
      if rest.Grouped? { Seqs.Assoc(parts, [part], rest.parts); }
      parts := parts + [part];
    }
    Seqs.Empty(parts);
    r := Grouped(parts);
  }

  // ------------------------------------------------------------- the groups

  predicate InGroup(k: RowKey, g: string) { k.Grouped? && Join(k.parts) == g }

  /** The numbers of the rows of a group among the first `n`, in order. */
  function Members(keys: seq<RowKey>, g: string, n: nat): (rows: seq<nat>)
    requires n <= |keys|
    ensures forall k :: 0 <= k < |rows| ==> rows[k] < n
  {
    if n == 0 then [] else Members(keys, g, n - 1) + if InGroup(keys[n - 1], g) then [n - 1] else []
  }

  /** A group has exactly the rows whose values join to its key, in their order. */
  lemma {:induction false} MembersAre(keys: seq<RowKey>, g: string, n: nat)
    requires n <= |keys|
    ensures forall i: nat :: i in Members(keys, g, n) <==> i < n && InGroup(keys[i], g)
    ensures forall p, q :: 0 <= p < q < |Members(keys, g, n)| ==> Members(keys, g, n)[p] < Members(keys, g, n)[q]
  {
    if n > 0 {
      MembersAre(keys, g, n - 1);
      var before := Members(keys, g, n - 1);
      forall p | 0 <= p < |before| ensures before[p] < n - 1 { assert before[p] in before; }
    }
  }

  ghost predicate HasMember(keys: seq<RowKey>, g: string, n: nat)
    requires n <= |keys|
  {
    exists i :: 0 <= i < n && InGroup(keys[i], g)
  }

  /** What the map built from the first `n` rows says of one key. */
  ghost predicate GroupIs(keys: seq<RowKey>, n: nat, groups: map<string, seq<nat>>, g: string)
    requires n <= |keys|
  {
    (g in groups <==> HasMember(keys, g, n)) && (g in groups ==> groups[g] == Members(keys, g, n))
  }

  ghost predicate GroupsOf(keys: seq<RowKey>, n: nat, groups: map<string, seq<nat>>)
    requires n <= |keys|
  {
    forall g :: GroupIs(keys, n, groups, g)
  }

  lemma {:induction false} NoMembers(keys: seq<RowKey>, g: string, n: nat)
    requires n <= |keys| && !HasMember(keys, g, n)
    ensures Members(keys, g, n) == []
  {
    if n > 0 {
      HasMemberStep(keys, g, n - 1);
      NoMembers(keys, g, n - 1);
    }
  }

  lemma {:induction false} HasMemberStep(keys: seq<RowKey>, g: string, n: nat)
    requires n < |keys|
    ensures HasMember(keys, g, n + 1) <==> HasMember(keys, g, n) || InGroup(keys[n], g)
  {
    if i :| 0 <= i < n + 1 && InGroup(keys[i], g) { assert i < n || i == n; }
  }

  /** A row joins its own group and leaves the others alone. */
  function AddRow(groups: map<string, seq<nat>>, key: RowKey, i: nat): map<string, seq<nat>> {
    if !key.Grouped? then groups
    else
      var g := Join(key.parts);
      groups[g := (if g in groups then groups[g] else []) + [i]]
  }

  lemma {:induction false} GroupStep(keys: seq<RowKey>, n: nat, groups: map<string, seq<nat>>, g: string)
    requires n < |keys| && GroupIs(keys, n, groups, g)
    ensures GroupIs(keys, n + 1, AddRow(groups, keys[n], n), g)
  {
    HasMemberStep(keys, g, n);
    Seqs.Empty(Members(keys, g, n));
    if g !in groups { NoMembers(keys, g, n); }
  }

  lemma {:induction false} GroupsStep(keys: seq<RowKey>, n: nat, groups: map<string, seq<nat>>)
    requires n < |keys| && GroupsOf(keys, n, groups)
    ensures GroupsOf(keys, n + 1, AddRow(groups, keys[n], n))
  {
    var m, after := n + 1, AddRow(groups, keys[n], n);
    forall g ensures GroupIs(keys, m, after, g) { GroupStep(keys, n, groups, g); }
  }

  /** The grouping loop. */
  method GroupRows(render: Cell -> string, rows: seq<seq<Outcome<Cell>>>) returns (r: Result<map<string, seq<nat>>>)
    ensures r.Ok? <==> Fails !in Keys(render, rows)
    ensures r.Ok? ==> GroupsOf(Keys(render, rows), |rows|, r.value)
  {
    ghost var keys := Keys(render, rows);
    var groups: map<string, seq<nat>> := map[];
    for i := 0 to |rows|
      invariant GroupsOf(keys, i, groups) && Fails !in keys[..i]
    {
      var key := KeyOf(render, rows[i]);
      assert keys[i] == key;
      if key.Fails? { return Err; }
      GroupsStep(keys, i, groups);
      Seqs.Unsnoc(keys, i);
      if key.Grouped? {
        var g := Join(key.parts);
        groups := groups[g := (if g in groups then groups[g] else []) + [i]];
      }
    }
    assert keys[..|rows|] == keys;
    r := Ok(groups);
  }

  function Keys(render: Cell -> string, rows: seq<seq<Outcome<Cell>>>): seq<RowKey> {
    seq(|rows|, k requires 0 <= k < |rows| => KeyFrom(render, rows[k], 0))
  }

  // ------------------------------------------------------------ the theorems

  /**
   Two rows share a group exactly when their values are rendered alike, if the values of one keep clear of the
   separators.
   */
  lemma {:induction false} GroupIsTuple(keys: seq<RowKey>, i: nat, j: nat)
    requires i < |keys| && j < |keys| && keys[i].Grouped? && keys[j].Grouped?
    requires |keys[i].parts| == |keys[j].parts| && Clean(keys[i].parts)
    ensures (exists g :: i in Members(keys, g, |keys|) && j in Members(keys, g, |keys|))
       <==> keys[i].parts == keys[j].parts
  {
    var g := Join(keys[i].parts);
    MembersAre(keys, g, |keys|);
    if keys[i].parts == keys[j].parts { assert i in Members(keys, g, |keys|) && j in Members(keys, g, |keys|); }
    if h :| i in Members(keys, h, |keys|) && j in Members(keys, h, |keys|) {
      MembersAre(keys, h, |keys|);
      CleanIdentifies(keys[i].parts, keys[j].parts);
    }
  }

  /** Otherwise some other list of values would fall into the same group. */
  lemma {:induction false} UncleanTuplesMerge(parts: seq<string>)
    requires !Clean(parts)
    ensures exists other: seq<string> :: |other| == |parts| && other != parts && InGroup(Grouped(other), Join(parts))
  {
    IdentifiedExactly(parts);
    var other: seq<string> :| |other| == |parts| && Join(other) == Join(parts) && other != parts;
    assert InGroup(Grouped(other), Join(parts));
  }

  /** The rows of the groups listed in `gs`, one group after another. */
  function Listed(keys: seq<RowKey>, gs: seq<string>): seq<nat> {
    if gs == [] then [] else Listed(keys, gs[..|gs| - 1]) + Members(keys, gs[|gs| - 1], |keys|)
  }

  /** All rows that are in some group, in order. */
  function AllGrouped(keys: seq<RowKey>, n: nat): (rows: seq<nat>)
    requires n <= |keys|
    ensures forall k :: 0 <= k < |rows| ==> rows[k] < n
  {
    if n == 0 then [] else AllGrouped(keys, n - 1) + if keys[n - 1].Grouped? then [n - 1] else []
  }

  function One(b: bool): nat { if b then 1 else 0 }

  lemma {:induction false} CountJoin(a: seq<nat>, b: seq<nat>, i: nat)
    ensures multiset(a + b)[i] == multiset(a)[i] + multiset(b)[i]
  {
  }

  lemma {:induction false} CountOne(x: nat, i: nat)
    ensures multiset([x])[i] == One(x == i)
  {
  }

  /** A list that ends in `m` or not. */
  lemma {:induction false} CountMaybe(a: seq<nat>, b: bool, m: nat, i: nat)
    ensures multiset(a + if b then [m] else [])[i] == multiset(a)[i] + One(b && m == i)
  {
    CountJoin(a, if b then [m] else [], i);
    CountOne(m, i);
  }

  lemma {:induction false} CountMembers(keys: seq<RowKey>, g: string, n: nat, i: nat)
    requires n <= |keys|
    ensures multiset(Members(keys, g, n))[i] == One(i < n && InGroup(keys[i], g))
  {
    if n > 0 {
      CountMembers(keys, g, n - 1, i);
      CountMaybe(Members(keys, g, n - 1), InGroup(keys[n - 1], g), n - 1, i);
    }
  }

  lemma {:induction false} CountGrouped(keys: seq<RowKey>, n: nat, i: nat)
    requires n <= |keys|
    ensures multiset(AllGrouped(keys, n))[i] == One(i < n && keys[i].Grouped?)
  {
    if n > 0 {
      CountGrouped(keys, n - 1, i);
      CountMaybe(AllGrouped(keys, n - 1), keys[n - 1].Grouped?, n - 1, i);
    }
  }

  lemma {:induction false} LastIsNew(gs: seq<string>)
    requires gs != [] && Seqs.Distinct(gs)
    ensures gs[|gs| - 1] !in gs[..|gs| - 1] && Seqs.Distinct(gs[..|gs| - 1])
    ensures forall g :: g in gs <==> g in gs[..|gs| - 1] || g == gs[|gs| - 1]
  {
    assert gs == gs[..|gs| - 1] + [gs[|gs| - 1]];
  }

  /** The row is in one of the listed groups. */
  predicate InSome(keys: seq<RowKey>, gs: seq<string>, i: nat) {
    i < |keys| && keys[i].Grouped? && Join(keys[i].parts) in gs
  }

  lemma {:induction false} CountListed(keys: seq<RowKey>, gs: seq<string>, i: nat)
    requires Seqs.Distinct(gs)
    ensures multiset(Listed(keys, gs))[i] == One(InSome(keys, gs, i))
  {
    if gs != [] {
      var n := |gs| - 1;
      LastIsNew(gs);
      CountListed(keys, gs[..n], i);
      CountMembers(keys, gs[n], |keys|, i);
      CountJoin(Listed(keys, gs[..n]), Members(keys, gs[n], |keys|), i);
      assert InSome(keys, gs, i) <==> InSome(keys, gs[..n], i) || (i < |keys| && InGroup(keys[i], gs[n]));
      assert !(InSome(keys, gs[..n], i) && i < |keys| && InGroup(keys[i], gs[n]));
    }
  }

  /** The groups, visited in any order, hold each row without a NULL key exactly once. */
  lemma {:induction false} GroupsPartition(keys: seq<RowKey>, groups: map<string, seq<nat>>, gs: seq<string>)
    requires GroupsOf(keys, |keys|, groups) && Seqs.Distinct(gs) && forall g :: g in gs <==> g in groups
    ensures multiset(Listed(keys, gs)) == multiset(AllGrouped(keys, |keys|))
  {
    forall i: nat ensures multiset(Listed(keys, gs))[i] == multiset(AllGrouped(keys, |keys|))[i] {
      CountListed(keys, gs, i);
      CountGrouped(keys, |keys|, i);
      if i < |keys| && keys[i].Grouped? {
        var g := Join(keys[i].parts);
        assert InGroup(keys[i], g) && GroupIs(keys, |keys|, groups, g);
      }
    }
  }

  /** The numbers of some rows, in their order; a row may have none. */
  function Pick(numbers: nat -> seq<real>, rows: seq<nat>): seq<real> {
    if rows == [] then [] else numbers(rows[0]) + Pick(numbers, rows[1..])
  }

  lemma {:induction false} PickJoin(numbers: nat -> seq<real>, a: seq<nat>, b: seq<nat>)
    ensures Pick(numbers, a + b) == Pick(numbers, a) + Pick(numbers, b)
  {
    if a == [] {
      Seqs.Empty(b);
      Seqs.Empty(Pick(numbers, b));
    } else {
      Seqs.TailOfJoin(a, b);
      PickJoin(numbers, a[1..], b);
      Seqs.Assoc(numbers(a[0]), Pick(numbers, a[1..]), Pick(numbers, b));
    }
  }

  lemma {:induction false} PickAround(numbers: nat -> seq<real>, l: seq<nat>, x: nat, r: seq<nat>)
    ensures multiset(Pick(numbers, l + ([x] + r))) == multiset(Pick(numbers, l + r)) + multiset(numbers(x))
  {
    PickJoin(numbers, l, [x] + r);
    PickJoin(numbers, l, r);
    assert ([x] + r)[1..] == r;
  }

  lemma {:induction false} PickPermuted(numbers: nat -> seq<real>, a: seq<nat>, b: seq<nat>)
    requires multiset(a) == multiset(b)
    ensures multiset(Pick(numbers, a)) == multiset(Pick(numbers, b))
    decreases |a|
  {
    if a == [] {
      assert |b| == |multiset(b)| == 0;
    } else {
      var x, tail := a[0], a[1..];
      assert x in multiset(b);
      var l, r := Seqs.TakeOut(b, x);
      assert a == [] + ([x] + tail);
      assert multiset(tail) == multiset(a) - multiset{x};
      PickPermuted(numbers, tail, l + r);
      PickAround(numbers, l, x, r);
      PickAround(numbers, [], x, tail);
      Seqs.Empty(tail);
    }
  }

  function Picks(keys: seq<RowKey>, numbers: nat -> seq<real>, gs: seq<string>): seq<seq<real>> {
    seq(|gs|, k requires 0 <= k < |gs| => Pick(numbers, Members(keys, gs[k], |keys|)))
  }

  lemma {:induction false} PickListed(keys: seq<RowKey>, numbers: nat -> seq<real>, gs: seq<string>)
    ensures Pick(numbers, Listed(keys, gs)) == Aggregates.Flat(Picks(keys, numbers, gs))
  {
    if gs != [] {
      var n := |gs| - 1;
      PickListed(keys, numbers, gs[..n]);
      PickJoin(numbers, Listed(keys, gs[..n]), Members(keys, gs[n], |keys|));
      assert Picks(keys, numbers, gs)[..n] == Picks(keys, numbers, gs[..n]);
    }
  }

  /**
   SUM of the groups' SUMs, MIN of their MINs and MAX of their MAXs, the groups visited in any order, are those of all
   rows without a NULL key. A group without a number answers NULL.
   */
  lemma {:induction false} GroupedAggregatesRecombine(
    parse: Parse, f: Aggregates.Function, keys: seq<RowKey>, groups: map<string, seq<nat>>, gs: seq<string>,
    numbers: nat -> seq<real>)
    requires GroupsOf(keys, |keys|, groups) && Seqs.Distinct(gs) && (forall g :: g in gs <==> g in groups) && !f.Avg?
    ensures Aggregates.Aggregate(f, Aggregates.Numbers(parse, Aggregates.Answers(f, Picks(keys, numbers, gs))))
         == Aggregates.Aggregate(f, Pick(numbers, AllGrouped(keys, |keys|)))
  {
    GroupsPartition(keys, groups, gs);
    PickPermuted(numbers, AllGrouped(keys, |keys|), Listed(keys, gs));
    PickListed(keys, numbers, gs);
    Aggregates.GroupsRecombine(parse, f, Picks(keys, numbers, gs), Pick(numbers, AllGrouped(keys, |keys|)));
  }

  /** The rows as an aggregate sees them. */
  function ViewsOf(views: seq<Aggregates.View>, rows: seq<nat>): (vs: seq<Aggregates.View>)
    requires forall k :: 0 <= k < |rows| ==> rows[k] < |views|
    ensures |vs| == |rows| && forall k :: 0 <= k < |rows| ==> vs[k] == views[rows[k]]
  {
    seq(|rows|, k requires 0 <= k < |rows| => views[rows[k]])
  }

  /** What AggregateInSelect answers for these rows, without DISTINCT, when no value fails to convert. */
  function AnswerFor(parse: Parse, f: Aggregates.Function, views: seq<Aggregates.View>, rows: seq<nat>): Cell
    requires forall k :: 0 <= k < |rows| ==> rows[k] < |views|
  {
    Aggregates.Aggregate(f, Aggregates.Numbers(parse, Aggregates.SelectFetches(ViewsOf(views, rows))))
  }

  /** The number a row gives SELECT, if it gives one. */
  function NumbersAt(parse: Parse, views: seq<Aggregates.View>, i: nat): seq<real> {
    if i >= |views| then []
    else
      var f := Aggregates.FetchInSelect(views[i], 0);
      if f.Got? && NumericValue(parse, f.cell).Num? then [NumericValue(parse, f.cell).r] else []
  }

  function NumbersOf(parse: Parse, views: seq<Aggregates.View>): nat -> seq<real> {
    (i: nat) => NumbersAt(parse, views, i)
  }

  lemma {:induction false} PickIsNumbers(parse: Parse, views: seq<Aggregates.View>, rows: seq<nat>)
    requires forall k :: 0 <= k < |rows| ==> rows[k] < |views|
    ensures Pick(NumbersOf(parse, views), rows)
         == Aggregates.Numbers(parse, Aggregates.SelectFetches(ViewsOf(views, rows)))
  {
    var numbers := NumbersOf(parse, views);
    if rows != [] {
      var init, last := rows[..|rows| - 1], rows[|rows| - 1];
      assert rows == init + [last];
      PickIsNumbers(parse, views, init);
      PickJoin(numbers, init, [last]);
      assert [last][1..] == [];
      Seqs.Empty(numbers(last));
      var fs := Aggregates.SelectFetches(ViewsOf(views, rows));
      assert fs[..|rows| - 1] == Aggregates.SelectFetches(ViewsOf(views, init));
    }
  }

  /** The answers of SELECT for the groups, in the order they are visited. */
  function GroupAnswers(
    parse: Parse, f: Aggregates.Function, keys: seq<RowKey>, gs: seq<string>, views: seq<Aggregates.View>)
    : seq<Aggregates.Fetched>
    requires |views| == |keys|
  {
    seq(|gs|, k requires 0 <= k < |gs| => Aggregates.Got(AnswerFor(parse, f, views, Members(keys, gs[k], |keys|))))
  }

  /**
   SELECT SUM, MIN or MAX with GROUP BY and the same without: aggregating the groups' answers gives the answer for all
   rows without a NULL key.
   */
  lemma {:induction false} GroupedSelectRecombines(
    parse: Parse, f: Aggregates.Function, keys: seq<RowKey>, groups: map<string, seq<nat>>, gs: seq<string>,
    views: seq<Aggregates.View>)
    requires GroupsOf(keys, |keys|, groups) && Seqs.Distinct(gs) && (forall g :: g in gs <==> g in groups) && !f.Avg?
    requires |views| == |keys|
    ensures Aggregates.Aggregate(f, Aggregates.Numbers(parse, GroupAnswers(parse, f, keys, gs, views)))
         == AnswerFor(parse, f, views, AllGrouped(keys, |keys|))
  {
    var numbers := NumbersOf(parse, views);
    GroupedAggregatesRecombine(parse, f, keys, groups, gs, numbers);
    PickIsNumbers(parse, views, AllGrouped(keys, |keys|));
    var answers := Aggregates.Answers(f, Picks(keys, numbers, gs));
    forall k | 0 <= k < |gs| ensures answers[k] == GroupAnswers(parse, f, keys, gs, views)[k] {
      PickIsNumbers(parse, views, Members(keys, gs[k], |keys|));
    }
    assert answers == GroupAnswers(parse, f, keys, gs, views);
  }

  /** COUNT of each group, added up over the groups: COUNT is the number of rows, with or without a value. */
  function Counts(keys: seq<RowKey>, gs: seq<string>): nat {
    if gs == [] then 0 else Counts(keys, gs[..|gs| - 1]) + |Members(keys, gs[|gs| - 1], |keys|)|
  }

  /** The groups' COUNTs, visited in any order, add up to the number of rows without a NULL key. */
  lemma {:induction false} GroupedCountsAddUp(keys: seq<RowKey>, groups: map<string, seq<nat>>, gs: seq<string>)
    requires GroupsOf(keys, |keys|, groups) && Seqs.Distinct(gs) && forall g :: g in gs <==> g in groups
    ensures Counts(keys, gs) == |AllGrouped(keys, |keys|)|
  {
    GroupsPartition(keys, groups, gs);
    ListedCounts(keys, gs);
    var listed, all := Listed(keys, gs), AllGrouped(keys, |keys|);
    assert |listed| == |multiset(listed)| == |multiset(all)| == |all|;
  }

  lemma {:induction false} ListedCounts(keys: seq<RowKey>, gs: seq<string>)
    ensures |Listed(keys, gs)| == Counts(keys, gs)
  {
    if gs != [] { ListedCounts(keys, gs[..|gs| - 1]); }
  }
}
