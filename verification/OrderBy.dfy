/**
 ORDER BY (pkg/core/query.go): the comparator over the key values of two rows, when it orders rows at all, and that
 sorting by several keys at once is sorting by each of them, the last one first.
 */
module OrderBy {
  import opened Cells
  import Keys
  import Seqs

  datatype Verdict = Before | After | Tie

  function Reverse(v: Verdict, descending: bool): Verdict {
    if !descending || v == Tie then v else if v == Before then After else Before
  }

  /** One ORDER BY key of two rows. Two values that are neither both numbers nor both text tie. */
  function CompareKey(parse: Parse, descending: bool, a: Cell, b: Cell): Verdict {
    if a.Null? && b.Null? then Tie
    else if a.Null? then if descending then After else Before
    else if b.Null? then if descending then Before else After
    else
      var x, y := NumericValue(parse, a), NumericValue(parse, b);
      if x.Num? && y.Num? then Reverse(if x.r < y.r then Before else if x.r > y.r then After else Tie, descending)
      else if a.Text? && b.Text? then
        Reverse(if Keys.LexLess(a.s, b.s) then Before else if Keys.LexLess(b.s, a.s) then After else Tie, descending)
      else Tie
  }

  /** The keys from the `k`-th on: the first that does not tie decides. */
  predicate Less(parse: Parse, descending: seq<bool>, a: seq<Cell>, b: seq<Cell>, k: nat)
    requires |a| == |b| == |descending|
    decreases |descending| - k
  {
    k < |descending| &&
    match CompareKey(parse, descending[k], a[k], b[k])
    case Before => true
    case After => false
    case Tie => Less(parse, descending, a, b, k + 1)
  }

  /** The comparator handed to the sort. */
  method Precedes(parse: Parse, descending: seq<bool>, a: seq<Cell>, b: seq<Cell>) returns (r: bool)
    requires |a| == |b| == |descending|
    ensures r <==> Less(parse, descending, a, b, 0)
  {
    for k := 0 to |descending|
      invariant Less(parse, descending, a, b, 0) <==> Less(parse, descending, a, b, k)
    {
      var v := CompareKey(parse, descending[k], a[k], b[k]);
      if v == Before { return true; }
      if v == After { return false; }
    }
    r := false;
  }

  /** An ORDER BY key of a grouped or derived result: a result column, or an expression the comparator passes over. */
  datatype ResultKey = ColumnKey(name: string, descending: bool) | OtherKey

  function Directions(keys: seq<ResultKey>): seq<bool> {
    seq(|keys|, k requires 0 <= k < |keys| => keys[k].ColumnKey? && keys[k].descending)
  }

  /** The values a result row is sorted by: a column it does not have counts as NULL, and so does any other key. */
  function KeyCells(keys: seq<ResultKey>, row: Row): seq<Cell> {
    seq(|keys|, k requires 0 <= k < |keys| =>
      if keys[k].ColumnKey? && keys[k].name in row then row[keys[k].name] else Null)
  }

  /** The comparator for result rows has its own body, and orders them as the first one orders their key values. */
  method ResultPrecedes(parse: Parse, keys: seq<ResultKey>, a: Row, b: Row) returns (r: bool)
    ensures r <==> Less(parse, Directions(keys), KeyCells(keys, a), KeyCells(keys, b), 0)
  {
    ghost var dirs, x, y := Directions(keys), KeyCells(keys, a), KeyCells(keys, b);
    for k := 0 to |keys|
      invariant Less(parse, dirs, x, y, 0) <==> Less(parse, dirs, x, y, k)
    {
      if keys[k].OtherKey? { continue; }
      var name, descending := keys[k].name, keys[k].descending;
      var inA, inB := name in a && a[name] != Null, name in b && b[name] != Null;
      if !inA || !inB {
        if !inA && inB { return !descending; }
        if !inB && inA { return descending; }
        continue;
      }
      var m, n := NumericValue(parse, a[name]), NumericValue(parse, b[name]);
      if m.Num? && n.Num? {
        if m.r != n.r { return if descending then m.r > n.r else m.r < n.r; }
        continue;
      }
      if a[name].Text? && b[name].Text? {
        if a[name].s != b[name].s {
          TextDecides(a[name].s, b[name].s);
          return if descending then Keys.LexLess(b[name].s, a[name].s) else Keys.LexLess(a[name].s, b[name].s);
        }
        TextDecides(a[name].s, b[name].s);
      }
    }
    r := false;
  }

  /** Of two different strings exactly one comes first. */
  lemma {:induction false} TextDecides(a: string, b: string)
    ensures !(Keys.LexLess(a, b) && Keys.LexLess(b, a))
    ensures a == b <==> !Keys.LexLess(a, b) && !Keys.LexLess(b, a)
  {
    Keys.KeyOfEmbeds(a, b);
    Keys.KeyOfEmbeds(b, a);
  }

  // ------------------------------------------------------------ stable sorting

  /** Rows are named by their number in the unsorted result. */
  type Relation = (nat, nat) -> bool

  ghost predicate Earlier(p: seq<nat>, a: nat, b: nat) { exists i, j :: 0 <= i < j < |p| && p[i] == a && p[j] == b }

  /** The order of a stable sort: as the relation says and, where it does not decide, as before. */
  ghost predicate Goes(less: Relation, p: seq<nat>, a: nat, b: nat) { less(a, b) || (!less(b, a) && Earlier(p, a, b)) }

  ghost predicate InOrder(less: Relation, p: seq<nat>, q: seq<nat>) {
    forall i, j :: 0 <= i < j < |q| ==> Goes(less, p, q[i], q[j])
  }

  ghost predicate IsStableSort(less: Relation, p: seq<nat>, q: seq<nat>) {
    Seqs.Distinct(p) && multiset(p) == multiset(q) && InOrder(less, p, q)
  }

  /**
   A strict weak order on the rows: never both ways, and whatever separates two rows separates a third from one of
   them.
   */
  ghost predicate Strict(less: Relation, p: seq<nat>) {
    && (forall a, b :: a in p && b in p && less(a, b) ==> !less(b, a))
    && (forall a, b, c :: a in p && b in p && c in p && less(a, c) ==> less(a, b) || less(b, c))
  }

  /** The sort: insertion keeps the order of rows that tie. */
  function Insert(less: Relation, x: nat, q: seq<nat>): seq<nat> {
    if q != [] && less(q[0], x) then [q[0]] + Insert(less, x, q[1..]) else [x] + q
  }

  function StableSort(less: Relation, p: seq<nat>): seq<nat> {
    if p == [] then [] else Insert(less, p[0], StableSort(less, p[1..]))
  }

  lemma {:induction false} InsertBag(less: Relation, x: nat, q: seq<nat>)
    ensures multiset(Insert(less, x, q)) == multiset(q) + multiset{x}
  {
    if q != [] && less(q[0], x) {
      InsertBag(less, x, q[1..]);
      Seqs.Uncons(q, 0);
      assert q[0..] == q;
    }
  }

  lemma {:induction false} SortBag(less: Relation, p: seq<nat>)
    ensures multiset(StableSort(less, p)) == multiset(p)
  {
    if p != [] {
      SortBag(less, p[1..]);
      InsertBag(less, p[0], StableSort(less, p[1..]));
      assert p == [p[0]] + p[1..];
    }
  }

  lemma {:induction false} InsertInOrder(less: Relation, p: seq<nat>, x: nat, q: seq<nat>)
    requires Strict(less, p) && x in p && InOrder(less, p, q)
    requires forall y :: y in q ==> y in p && Earlier(p, x, y)
    ensures InOrder(less, p, Insert(less, x, q))
  {
    if q != [] && less(q[0], x) {
      assert InOrder(less, p, q[1..]);
      InsertInOrder(less, p, x, q[1..]);
      var rest := Insert(less, x, q[1..]);
      InsertBag(less, x, q[1..]);
      forall y | y in rest ensures Goes(less, p, q[0], y) {
        assert y in multiset(rest);
        if y != x { assert y in q[1..]; }
      }
    } else {
      forall y | y in q ensures Goes(less, p, x, y) {
        assert y == q[0] || Goes(less, p, q[0], y);
      }
    }
  }

  lemma {:induction false} TailGoes(less: Relation, p: seq<nat>, q: seq<nat>)
    requires p != [] && InOrder(less, p[1..], q)
    ensures InOrder(less, p, q)
  {
    forall a, b | Earlier(p[1..], a, b) ensures Earlier(p, a, b) {
      var i, j :| 0 <= i < j < |p[1..]| && p[1..][i] == a && p[1..][j] == b;
      assert p[i + 1] == a && p[j + 1] == b;
    }
  }

  /** Under a strict weak order the sort is a stable sort. */
  lemma {:induction false} SortIsStable(less: Relation, p: seq<nat>)
    requires Seqs.Distinct(p) && Strict(less, p)
    ensures IsStableSort(less, p, StableSort(less, p))
  {
    SortBag(less, p);
    if p != [] {
      var x, rest := p[0], p[1..];
      SortIsStable(less, rest);
      var q := StableSort(less, rest);
      TailGoes(less, p, q);
      forall y | y in q ensures y in p && Earlier(p, x, y) {
        assert y in multiset(q);
        var j :| 0 <= j < |rest| && rest[j] == y;
        assert p[j + 1] == y;
      }
      InsertInOrder(less, p, x, q);
    }
  }

  lemma {:induction false} GoesOneWay(less: Relation, p: seq<nat>, a: nat, b: nat)
    requires Seqs.Distinct(p) && Strict(less, p) && a in p && b in p && a != b
    ensures !(Goes(less, p, a, b) && Goes(less, p, b, a))
  {
  }

  lemma {:induction false} SameHead(less: Relation, p: seq<nat>, q: seq<nat>, r: seq<nat>)
    requires Seqs.Distinct(p) && Strict(less, p) && multiset(q) == multiset(r) && (forall y :: y in q ==> y in p)
    requires InOrder(less, p, q) && InOrder(less, p, r) && q != [] && r != []
    ensures q[0] == r[0]
  {
    var a, b := q[0], r[0];
    assert b in multiset(q) && a in multiset(r);
    assert a == b || (Goes(less, p, a, b) && Goes(less, p, b, a));
    if a != b { GoesOneWay(less, p, a, b); }
  }

  lemma {:induction false} TailBag(q: seq<nat>)
    requires q != []
    ensures multiset(q[1..]) == multiset(q) - multiset{q[0]}
  {
    assert q == [q[0]] + q[1..];
  }

  lemma {:induction false} TailInOrder(less: Relation, p: seq<nat>, q: seq<nat>)
    requires q != [] && InOrder(less, p, q)
    ensures InOrder(less, p, q[1..])
  {
  }

  /** There is only one stable sort. */
  lemma {:induction false} StableSortIsUnique(less: Relation, p: seq<nat>, q: seq<nat>, r: seq<nat>)
    requires Seqs.Distinct(p) && Strict(less, p) && multiset(q) == multiset(r) && (forall y :: y in q ==> y in p)
    requires InOrder(less, p, q) && InOrder(less, p, r)
    ensures q == r
    decreases |q|
  {
    assert |q| == |multiset(q)| == |multiset(r)| == |r|;
    if q != [] {
      SameHead(less, p, q, r);
      TailBag(q);
      TailBag(r);
      TailInOrder(less, p, q);
      TailInOrder(less, p, r);
      StableSortIsUnique(less, p, q[1..], r[1..]);
      Seqs.Uncons(q, 0);
      Seqs.Uncons(r, 0);
    }
  }

  // ------------------------------------------------------ one key after another

  /** Sorting by the second relation and then by the first is sorting by the first, then the second. */
  lemma {:induction false} SortsCompose(
    first: Relation, second: Relation, both: Relation, p: seq<nat>, t: seq<nat>, u: seq<nat>)
    requires IsStableSort(second, p, t) && IsStableSort(first, t, u)
    requires forall a, b :: a in p && b in p ==> (both(a, b) <==> first(a, b) || (!first(b, a) && second(a, b)))
    requires forall a, b :: a in p && b in p && first(a, b) ==> !first(b, a)
    ensures IsStableSort(both, p, u)
  {
    forall i, j | 0 <= i < j < |u| ensures Goes(both, p, u[i], u[j]) {
      var a, b := u[i], u[j];
      assert a in multiset(u) && b in multiset(u);
      assert Goes(first, t, a, b);
      if !first(a, b) {
        var k, l :| 0 <= k < l < |t| && t[k] == a && t[l] == b;
        assert Goes(second, p, t[k], t[l]);
      }
    }
  }

  lemma {:induction false} Twice(s: seq<nat>, i: nat, j: nat)
    requires i < j < |s| && s[i] == s[j]
    ensures multiset(s)[s[i]] >= 2
  {
    assert s == s[..i] + [s[i]] + s[i + 1..j] + [s[j]] + s[j + 1..];
  }

  lemma {:induction false} Once(p: seq<nat>, a: nat)
    requires Seqs.Distinct(p)
    ensures multiset(p)[a] <= 1
  {
    if p != [] {
      Once(p[1..], a);
      assert p == [p[0]] + p[1..];
      forall j | 0 <= j < |p[1..]| ensures p[1..][j] != p[0] { assert p[1..][j] == p[j + 1]; }
    }
  }

  lemma {:induction false} PermutedDistinct(p: seq<nat>, s: seq<nat>)
    requires Seqs.Distinct(p) && multiset(p) == multiset(s)
    ensures Seqs.Distinct(s) && forall a: nat :: a in s <==> a in p
  {
    forall i, j | 0 <= i < j < |s| ensures s[i] != s[j] {
      if s[i] == s[j] {
        Twice(s, i, j);
        Once(p, s[i]);
      }
    }
    forall a: nat ensures a in s <==> a in p { assert a in multiset(s) <==> a in multiset(p); }
  }

  /** Sorting by both relations at once gives what sorting by one after the other gives. */
  lemma {:induction false} SortsComposeEqual(first: Relation, second: Relation, both: Relation, p: seq<nat>)
    requires Seqs.Distinct(p) && Strict(first, p) && Strict(second, p) && Strict(both, p)
    requires forall a, b :: a in p && b in p ==> (both(a, b) <==> first(a, b) || (!first(b, a) && second(a, b)))
    ensures StableSort(both, p) == StableSort(first, StableSort(second, p))
  {
    var t := StableSort(second, p);
    SortIsStable(second, p);
    PermutedDistinct(p, t);
    SortIsStable(first, t);
    SortsCompose(first, second, both, p, t, StableSort(first, t));
    SortIsStable(both, p);
    PermutedDistinct(p, StableSort(both, p));
    StableSortIsUnique(both, p, StableSort(both, p), StableSort(first, t));
  }

  /** The rows' key values, the direction of each key and how text is read as a number. */
  datatype Table = Table(parse: Parse, descending: seq<bool>, keys: seq<seq<Cell>>)

  ghost predicate Shaped(t: Table) { forall a :: 0 <= a < |t.keys| ==> |t.keys[a]| == |t.descending| }

  ghost function ByKeysFrom(t: Table, k: nat): Relation
    requires Shaped(t)
  {
    (a: nat, b: nat) => a < |t.keys| && b < |t.keys| && Less(t.parse, t.descending, t.keys[a], t.keys[b], k)
  }

  ghost function ByKey(t: Table, k: nat): Relation
    requires Shaped(t) && k < |t.descending|
  {
    (a: nat, b: nat) =>
      a < |t.keys| && b < |t.keys| && CompareKey(t.parse, t.descending[k], t.keys[a][k], t.keys[b][k]) == Before
  }

  /** Sort by the last key, then by the one before it, and so on up to the `k`-th. */
  ghost function KeyByKey(t: Table, k: nat, p: seq<nat>): seq<nat>
    requires Shaped(t) && k <= |t.descending|
    decreases |t.descending| - k
  {
    if k == |t.descending| then p else StableSort(ByKey(t, k), KeyByKey(t, k + 1, p))
  }

  // --------------------------------------------------- when the keys order rows

  datatype Kind = Numbers | Words | Others

  /** A column of one kind: numbers and numeric text, or text that is not numeric, or neither; NULLs anywhere. */
  predicate Fits(parse: Parse, kind: Kind, c: Cell) {
    c.Null? ||
    match kind
    case Numbers => NumericValue(parse, c).Num?
    case Words => c.Text? && NumericValue(parse, c).NotANumber?
    case Others => !c.Text? && NumericValue(parse, c).NotANumber?
  }

  datatype Rank = Bottom | At(r: real)

  function RankOf(parse: Parse, c: Cell): Rank {
    if c.Null? then Bottom
    else
      var n := NumericValue(parse, c);
      if n.Num? then At(n.r) else if c.Text? then At(Keys.KeyOf(c.s)) else At(0.0)
  }

  predicate Lower(x: Rank, y: Rank) { y.At? && (x.Bottom? || x.r < y.r) }

  /** Over a column of one kind a key compares ranks, NULLs being lowest. */
  lemma {:induction false} KeyComparesRanks(parse: Parse, kind: Kind, descending: bool, a: Cell, b: Cell)
    requires Fits(parse, kind, a) && Fits(parse, kind, b)
    ensures var x, y := RankOf(parse, a), RankOf(parse, b);
      CompareKey(parse, descending, a, b) ==
      Reverse(if Lower(x, y) then Before else if Lower(y, x) then After else Tie, descending)
  {
    if a.Text? && b.Text? {
      Keys.KeyOfEmbeds(a.s, b.s);
      Keys.KeyOfEmbeds(b.s, a.s);
    }
  }

  ghost predicate Uniform(t: Table, kinds: seq<Kind>) {
    && |kinds| == |t.descending| && Shaped(t)
    && forall a, k :: 0 <= a < |t.keys| && 0 <= k < |kinds| ==> Fits(t.parse, kinds[k], t.keys[a][k])
  }

  lemma {:induction false} KeyIsStrict(t: Table, kinds: seq<Kind>, k: nat, a: nat, b: nat, c: nat)
    requires Uniform(t, kinds) && k < |kinds| && a < |t.keys| && b < |t.keys| && c < |t.keys|
    ensures var less := ByKey(t, k);
      (less(a, b) ==> !less(b, a)) && (less(a, c) ==> less(a, b) || less(b, c))
  {
    var d, x, y, z := t.descending[k], t.keys[a][k], t.keys[b][k], t.keys[c][k];
    KeyComparesRanks(t.parse, kinds[k], d, x, y);
    KeyComparesRanks(t.parse, kinds[k], d, y, x);
    KeyComparesRanks(t.parse, kinds[k], d, x, z);
    KeyComparesRanks(t.parse, kinds[k], d, y, z);
  }

  /** The keys from the `k`-th on are the `k`-th key and then the others. */
  lemma {:induction false} FirstKeyThenRest(t: Table, k: nat, a: nat, b: nat)
    requires Shaped(t) && k < |t.descending| && a < |t.keys| && b < |t.keys|
    ensures ByKeysFrom(t, k)(a, b) <==> ByKey(t, k)(a, b) || (!ByKey(t, k)(b, a) && ByKeysFrom(t, k + 1)(a, b))
  {
    var d, x, y := t.descending[k], t.keys[a][k], t.keys[b][k];
    CompareBothWays(t.parse, d, x, y);
  }

  lemma {:induction false} CompareBothWays(parse: Parse, descending: bool, a: Cell, b: Cell)
    ensures CompareKey(parse, descending, b, a) == Reverse(CompareKey(parse, descending, a, b), true)
  {
    if a.Text? && b.Text? {
      Keys.KeyOfEmbeds(a.s, b.s);
      Keys.KeyOfEmbeds(b.s, a.s);
    }
  }

  lemma {:induction false} KeysAreStrict(t: Table, kinds: seq<Kind>, k: nat, a: nat, b: nat, c: nat)
    requires Uniform(t, kinds) && k <= |kinds| && a < |t.keys| && b < |t.keys| && c < |t.keys|
    ensures var less := ByKeysFrom(t, k);
      (less(a, b) ==> !less(b, a)) && (less(a, c) ==> less(a, b) || less(b, c))
    decreases |kinds| - k
  {
    if k < |kinds| {
      KeysAreStrict(t, kinds, k + 1, a, b, c);
      forall x, y | x in [a, b, c] && y in [a, b, c]
        ensures ByKeysFrom(t, k)(x, y) <==> ByKey(t, k)(x, y) || (!ByKey(t, k)(y, x) && ByKeysFrom(t, k + 1)(x, y))
      {
        FirstKeyThenRest(t, k, x, y);
      }
      forall x, y, z | x in [a, b, c] && y in [a, b, c] && z in [a, b, c]
        ensures var less := ByKey(t, k); (less(x, y) ==> !less(y, x)) && (less(x, z) ==> less(x, y) || less(y, z))
      {
        KeyIsStrict(t, kinds, k, x, y, z);
      }
    }
  }

  ghost predicate Rows(t: Table, p: seq<nat>) { Seqs.Distinct(p) && forall a: nat :: a in p ==> a < |t.keys| }

  /** Over columns each of one kind ORDER BY is a strict weak order. */
  lemma {:induction false} OrderByIsStrict(t: Table, kinds: seq<Kind>, k: nat, p: seq<nat>)
    requires Uniform(t, kinds) && k <= |kinds| && Rows(t, p)
    ensures Strict(ByKeysFrom(t, k), p) && (k < |kinds| ==> Strict(ByKey(t, k), p))
  {
    forall a, b, c | a in p && b in p && c in p
      ensures var less := ByKeysFrom(t, k); (less(a, b) ==> !less(b, a)) && (less(a, c) ==> less(a, b) || less(b, c))
    {
      KeysAreStrict(t, kinds, k, a, b, c);
    }
    if k < |kinds| {
      forall a, b, c | a in p && b in p && c in p
        ensures var less := ByKey(t, k); (less(a, b) ==> !less(b, a)) && (less(a, c) ==> less(a, b) || less(b, c))
      {
        KeyIsStrict(t, kinds, k, a, b, c);
      }
    }
  }

  lemma {:induction false} KeysCompose(t: Table, k: nat, p: seq<nat>)
    requires Shaped(t) && k < |t.descending| && Rows(t, p)
    ensures forall a, b :: a in p && b in p ==>
      (ByKeysFrom(t, k)(a, b) <==> ByKey(t, k)(a, b) || (!ByKey(t, k)(b, a) && ByKeysFrom(t, k + 1)(a, b)))
  {
    forall a, b | a in p && b in p
      ensures ByKeysFrom(t, k)(a, b) <==> ByKey(t, k)(a, b) || (!ByKey(t, k)(b, a) && ByKeysFrom(t, k + 1)(a, b))
    {
      FirstKeyThenRest(t, k, a, b);
    }
  }

  /** ORDER BY k1, ..., kn sorts as kn, then ..., then k1 do one after another. */
  lemma {:induction false} OrderByIsKeyByKey(t: Table, kinds: seq<Kind>, k: nat, p: seq<nat>)
    requires Uniform(t, kinds) && k <= |kinds| && Rows(t, p)
    ensures StableSort(ByKeysFrom(t, k), p) == KeyByKey(t, k, p)
    decreases |kinds| - k
  {
    if k == |kinds| {
      SortByNothing(ByKeysFrom(t, k), p);
    } else {
      OrderByIsKeyByKey(t, kinds, k + 1, p);
      OrderByIsStrict(t, kinds, k, p);
      OrderByIsStrict(t, kinds, k + 1, p);
      KeysCompose(t, k, p);
      SortsComposeEqual(ByKey(t, k), ByKeysFrom(t, k + 1), ByKeysFrom(t, k), p);
    }
  }

  /** Rows that all tie stay as they are. */
  lemma {:induction false} SortByNothing(less: Relation, p: seq<nat>)
    requires forall a, b :: !less(a, b)
    ensures StableSort(less, p) == p
  {
    if p != [] {
      SortByNothing(less, p[1..]);
      assert p == [p[0]] + p[1..];
    }
  }

  /** In the sorted result NULLs of the first key come first, or last when it is descending. */
  lemma {:induction false} NullsAtOneEnd(t: Table, kinds: seq<Kind>, p: seq<nat>, i: nat, j: nat)
    requires Uniform(t, kinds) && |kinds| > 0 && Rows(t, p) && i < j < |p|
    ensures var q := StableSort(ByKeysFrom(t, 0), p);
      && |q| == |p| && q[i] < |t.keys| && q[j] < |t.keys|
      && (t.keys[q[j]][0].Null? && !t.descending[0] ==> t.keys[q[i]][0].Null?)
      && (t.keys[q[i]][0].Null? && t.descending[0] ==> t.keys[q[j]][0].Null?)
  {
    OrderByIsStrict(t, kinds, 0, p);
    SortIsStable(ByKeysFrom(t, 0), p);
    var q := StableSort(ByKeysFrom(t, 0), p);
    assert |q| == |multiset(q)| == |p|;
    PermutedDistinct(p, q);
    assert q[i] in q && q[j] in q;
    assert Goes(ByKeysFrom(t, 0), p, q[i], q[j]);
    FirstKeyThenRest(t, 0, q[i], q[j]);
    FirstKeyThenRest(t, 0, q[j], q[i]);
  }

  // --------------------------------------------- columns of more than one kind

  /** On a column that mixes numeric and other text the comparator can go round in a circle. */
  lemma {:induction false} MixedTextCycles(parse: Parse)
    requires parse("9") == Num(9.0) && parse("10") == Num(10.0) && parse("1a") == NotANumber
    ensures CompareKey(parse, false, Text("9"), Text("10")) == Before
    ensures CompareKey(parse, false, Text("10"), Text("1a")) == Before
    ensures CompareKey(parse, false, Text("1a"), Text("9")) == Before
  {
    assert Keys.LexLess("10"[1..], "1a"[1..]);
  }

  predicate Comes(parse: Parse, a: Cell, b: Cell) { CompareKey(parse, false, a, b) == Before }

  /** The values of one column are put in order by the comparator: it is a strict weak order on them. */
  ghost predicate Orderly(parse: Parse, column: set<Cell>) {
    && (forall a, b :: a in column && b in column && Comes(parse, a, b) ==> !Comes(parse, b, a))
    && (forall a, b, c :: a in column && b in column && c in column && Comes(parse, a, c) ==>
          Comes(parse, a, b) || Comes(parse, b, c))
  }

  predicate IsNumber(c: Cell) { c.Int? || c.Real? || c.Count? }

  predicate IsNumericText(parse: Parse, c: Cell) { c.Text? && parse(c.s).Num? }

  predicate IsWord(parse: Parse, c: Cell) { c.Text? && parse(c.s).NotANumber? }

  predicate IsOther(c: Cell) { c.Bool? || c.Time? }

  /** No word lies between two numeric texts whose spelling and numbers disagree. */
  ghost predicate NoWordBetween(parse: Parse, column: set<Cell>) {
    forall x, y, w :: x in column && y in column && w in column && NotAbove(parse, x, y) && IsWord(parse, w)
      ==> !(Keys.LexLess(y.s, w.s) && Keys.LexLess(w.s, x.s))
  }

  predicate NotAbove(parse: Parse, x: Cell, y: Cell) {
    IsNumericText(parse, x) && IsNumericText(parse, y) && parse(x.s).r <= parse(y.s).r
  }

  /** Numbers and words that share a column tie, so everything else must lie on the same side of both. */
  ghost predicate SameSide(parse: Parse, column: set<Cell>) {
    forall n, w, z :: n in column && w in column && z in column && IsNumber(n) && IsWord(parse, w) && !z.Null?
      ==> CompareKey(parse, false, z, n) == CompareKey(parse, false, z, w)
  }

  /** Booleans and times tie with everything, so beside one of them everything must tie. */
  ghost predicate OthersAlone(parse: Parse, column: set<Cell>) {
    forall o, x, y :: o in column && x in column && y in column && IsOther(o) && !x.Null? && !y.Null? ==>
      !Comes(parse, x, y)
  }

  /** A column is put in order exactly when these three conditions hold; a column of one kind meets them all. */
  lemma {:induction false} OrderlyExactly(parse: Parse, column: set<Cell>)
    ensures Orderly(parse, column)
       <==> NoWordBetween(parse, column) && SameSide(parse, column) && OthersAlone(parse, column)
  {
    if Orderly(parse, column) {
      OrderlyMeetsConditions(parse, column);
    }
    if NoWordBetween(parse, column) && SameSide(parse, column) && OthersAlone(parse, column) {
      forall a, b | a in column && b in column && Comes(parse, a, b) ensures !Comes(parse, b, a) {
        CompareBothWays(parse, false, a, b);
      }
      forall a, b, c | a in column && b in column && c in column && Comes(parse, a, c)
        ensures Comes(parse, a, b) || Comes(parse, b, c)
      {
        Separates(parse, column, a, b, c);
      }
    }
  }

  lemma {:induction false} OrderlyMeetsConditions(parse: Parse, column: set<Cell>)
    requires Orderly(parse, column)
    ensures NoWordBetween(parse, column) && SameSide(parse, column) && OthersAlone(parse, column)
  {
    forall x, y, w | x in column && y in column && w in column && NotAbove(parse, x, y) && IsWord(parse, w)
      ensures !(Keys.LexLess(y.s, w.s) && Keys.LexLess(w.s, x.s))
    {
      assert Keys.LexLess(y.s, w.s) ==> Comes(parse, y, w);
      assert Keys.LexLess(w.s, x.s) ==> Comes(parse, w, x);
      assert !Comes(parse, y, x);
    }
    forall n, w, z | n in column && w in column && z in column && IsNumber(n) && IsWord(parse, w) && !z.Null?
      ensures CompareKey(parse, false, z, n) == CompareKey(parse, false, z, w)
    {
      CompareBothWays(parse, false, z, n);
      CompareBothWays(parse, false, z, w);
      assert !Comes(parse, n, w) && !Comes(parse, w, n);
      assert Comes(parse, z, n) ==> Comes(parse, z, w);
      assert Comes(parse, z, w) ==> Comes(parse, z, n);
      assert Comes(parse, n, z) ==> Comes(parse, w, z);
      assert Comes(parse, w, z) ==> Comes(parse, n, z);
    }
    forall o, x, y | o in column && x in column && y in column && IsOther(o) && !x.Null? && !y.Null?
      ensures !Comes(parse, x, y)
    {
      assert !Comes(parse, x, o) && !Comes(parse, o, y);
    }
  }

  lemma {:induction false} Separates(parse: Parse, column: set<Cell>, a: Cell, b: Cell, c: Cell)
    requires NoWordBetween(parse, column) && SameSide(parse, column) && OthersAlone(parse, column)
    requires a in column && b in column && c in column && Comes(parse, a, c)
    ensures Comes(parse, a, b) || Comes(parse, b, c)
  {
    if a.Null? || b.Null? || c.Null? {
    } else if a.Text? && c.Text? && b.Text? {
      Keys.KeyOfEmbeds(a.s, b.s);
      Keys.KeyOfEmbeds(b.s, c.s);
      Keys.KeyOfEmbeds(a.s, c.s);
      Keys.KeyOfEmbeds(c.s, b.s);
      Keys.KeyOfEmbeds(b.s, a.s);
    } else {
      SeparatesMixed(parse, column, a, b, c);
    }
  }

  lemma {:induction false} SeparatesMixed(parse: Parse, column: set<Cell>, a: Cell, b: Cell, c: Cell)
    requires SameSide(parse, column) && OthersAlone(parse, column)
    requires a in column && b in column && c in column && Comes(parse, a, c)
    requires !a.Null? && !b.Null? && !c.Null? && !(a.Text? && b.Text? && c.Text?)
    ensures Comes(parse, a, b) || Comes(parse, b, c)
  {
    CompareBothWays(parse, false, a, b);
    CompareBothWays(parse, false, b, c);
    CompareBothWays(parse, false, a, c);
    if IsNumber(b) && IsWord(parse, a) {
      assert CompareKey(parse, false, c, b) == CompareKey(parse, false, c, a);
    } else if IsNumber(b) && IsWord(parse, c) {
      assert CompareKey(parse, false, a, b) == CompareKey(parse, false, a, c);
    } else if IsWord(parse, b) && IsNumber(a) {
      assert CompareKey(parse, false, c, a) == CompareKey(parse, false, c, b);
    } else if IsWord(parse, b) && IsNumber(c) {
      assert CompareKey(parse, false, a, c) == CompareKey(parse, false, a, b);
    }
  }
}
