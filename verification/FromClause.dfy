/**
 The FROM list (pkg/core/query.go): cross products, the WHERE filter over them, and what the shortcut for an empty table
 changes.
 */
module FromClause {
  import opened Cells
  import opened Joins
  import Seqs

  function Plain(left: seq<CombinedRow>, right: seq<CombinedRow>, on: Condition): Operands {
    Operands(left, right, on, map[], map[])
  }

  /** Every left row beside every right row, in nested-loop order. */
  function Product(left: seq<CombinedRow>, right: seq<CombinedRow>): seq<CombinedRow> {
    RowsOf(Plain(left, right, Always), Pairs(Plain(left, right, Always), |left|))
  }

  /** What the code takes for the cross product: with one side empty it is the other side. */
  function Cross(left: seq<CombinedRow>, right: seq<CombinedRow>): seq<CombinedRow> {
    if left == [] then right else if right == [] then left else Product(left, right)
  }

  method CrossProduct(left: seq<CombinedRow>, right: seq<CombinedRow>) returns (rows: seq<CombinedRow>)
    ensures rows == Cross(left, right)
  {
    if left == [] { return right; }
    if right == [] { return left; }
    ghost var o := Plain(left, right, Always);
    rows := [];
    for i := 0 to |left|
      invariant rows == RowsOf(o, Pairs(o, i))
    {
      Seqs.Empty(Pairs(o, i));
      for j := 0 to |right|
        invariant rows == RowsOf(o, Pairs(o, i) + RowPairs(o, i, j))
      {
        RowPairsStep(o, i, j);
        rows := rows + [Merge(left[i], right[j])];
      }
    }
  }

  // ---------------------------------------------------------------- WHERE

  /** One more row for the filter to decide about. */
  function Extend(kept: Outcome<seq<CombinedRow>>, wanted: Outcome<bool>, row: CombinedRow): Outcome<seq<CombinedRow>> {
    if !kept.Done? then kept
    else if !wanted.Done? then wanted.Rethrow()
    else if wanted.value then Done(kept.value + [row])
    else kept
  }

  /** The rows the condition holds of, or the first failure of the condition. */
  function FilterRows(on: Condition, rows: seq<CombinedRow>): Outcome<seq<CombinedRow>> {
    if rows == [] then Done([])
    else
      var n := |rows| - 1;
      Extend(FilterRows(on, rows[..n]), Test(on, rows[n]), rows[n])
  }

  /** WHERE: one condition after another, stopping at the first failure. */
  method Filter(on: Condition, rows: seq<CombinedRow>) returns (r: Outcome<seq<CombinedRow>>)
    ensures r == FilterRows(on, rows)
  {
    var kept: seq<CombinedRow> := [];
    for i := 0 to |rows|
      invariant FilterRows(on, rows[..i]) == Done(kept)
    {
      FilterSnoc(on, rows[..i], rows[i]);
      Seqs.Unsnoc(rows, i);
      var wanted := Test(on, rows[i]);
      if !wanted.Done? {
        FilterStops(on, rows, i + 1);
        return wanted.Rethrow();
      }
      if wanted.value { kept := kept + [rows[i]]; }
    }
    assert rows[..|rows|] == rows;
    r := Done(kept);
  }

  lemma {:induction false} FilterStops(on: Condition, rows: seq<CombinedRow>, n: nat)
    requires n <= |rows| && !FilterRows(on, rows[..n]).Done?
    ensures FilterRows(on, rows) == FilterRows(on, rows[..n])
  {
    if n < |rows| {
      assert rows[..|rows| - 1][..n] == rows[..n];
      FilterStops(on, rows[..|rows| - 1], n);
    } else {
      assert rows[..n] == rows;
    }
  }

  lemma {:induction false} FilterSnoc(on: Condition, rows: seq<CombinedRow>, row: CombinedRow)
    ensures FilterRows(on, rows + [row]) == Extend(FilterRows(on, rows), Test(on, row), row)
  {
    assert (rows + [row])[..|rows|] == rows;
  }

  /** The rows of a join so far, or the failure met so far. */
  function JoinedSoFar(o: Operands, i: nat, j: nat): Outcome<seq<CombinedRow>>
    requires i < |o.left| && j <= |o.right|
  {
    if !Scan(o, i).Done? then Scan(o, i).Rethrow()
    else if !RowScan(o, i, j).Done? then RowScan(o, i, j).Rethrow()
    else Done(RowsOf(o, Pairs(o, i) + RowPairs(o, i, j)))
  }

  lemma {:induction false} JoinedStep(o: Operands, i: nat, j: nat)
    requires i < |o.left| && j < |o.right|
    ensures var merged := Merge(o.left[i], o.right[j]);
            JoinedSoFar(o, i, j + 1) == Extend(JoinedSoFar(o, i, j), Test(o.on, merged), merged)
  {
    RowPairsStep(o, i, j);
    Seqs.Empty(RowsOf(o, Pairs(o, i) + RowPairs(o, i, j)));
  }

  /** The end of one row of the nested loop is the start of the next. */
  lemma {:induction false} JoinedNextRow(o: Operands, i: nat)
    requires i + 1 < |o.left|
    ensures JoinedSoFar(o, i + 1, 0) == JoinedSoFar(o, i, |o.right|)
  {
    assert Scan(o, i + 1) == if Scan(o, i).Done? then RowScan(o, i, |o.right|) else Scan(o, i);
    assert Pairs(o, i + 1) == Pairs(o, i) + RowPairs(o, i, |o.right|);
    Seqs.Empty(Pairs(o, i + 1));
  }

  /** The rows of the product so far. */
  function ProductSoFar(o: Operands, i: nat, j: nat): seq<CombinedRow> { RowsOf(o, Pairs(o, i) + RowPairs(o, i, j)) }

  lemma {:induction false} ProductStep(o: Operands, i: nat, j: nat)
    requires i < |o.left| && j < |o.right| && o.on == Always
    ensures ProductSoFar(o, i, j + 1) == ProductSoFar(o, i, j) + [Merge(o.left[i], o.right[j])]
  {
    assert Hits(o, i, j);
    RowPairsStep(o, i, j);
  }

  lemma {:induction false} ProductNextRow(o: Operands, i: nat)
    ensures ProductSoFar(o, i + 1, 0) == ProductSoFar(o, i, |o.right|)
  {
    Seqs.Empty(Pairs(o, i + 1));
  }

  lemma {:induction false} FilterRowStep(a: Operands, o: Operands, i: nat, j: nat)
    requires a == o.(on := Always) && i < |o.left| && j < |o.right|
    requires FilterRows(o.on, ProductSoFar(a, i, j)) == JoinedSoFar(o, i, j)
    ensures FilterRows(o.on, ProductSoFar(a, i, j + 1)) == JoinedSoFar(o, i, j + 1)
  {
    JoinedStep(o, i, j);
    ProductStep(a, i, j);
    FilterSnoc(o.on, ProductSoFar(a, i, j), Merge(o.left[i], o.right[j]));
  }

  lemma {:induction false} FilterRow(a: Operands, o: Operands, i: nat)
    requires a == o.(on := Always) && i < |o.left|
    requires FilterRows(o.on, ProductSoFar(a, i, 0)) == JoinedSoFar(o, i, 0)
    ensures FilterRows(o.on, ProductSoFar(a, i, |o.right|)) == JoinedSoFar(o, i, |o.right|)
  {
    for j := 0 to |o.right|
      invariant FilterRows(o.on, ProductSoFar(a, i, j)) == JoinedSoFar(o, i, j)
    {
      FilterRowStep(a, o, i, j);
    }
  }

  lemma {:induction false} FilterStart(a: Operands, o: Operands)
    requires a == o.(on := Always) && o.left != []
    ensures FilterRows(o.on, ProductSoFar(a, 0, 0)) == JoinedSoFar(o, 0, 0)
  {
    assert Pairs(o, 0) == [] && RowPairs(o, 0, 0) == [] && Pairs(a, 0) == [] && RowPairs(a, 0, 0) == [];
    assert ProductSoFar(a, 0, 0) == [];
    assert Scan(o, 0).Done? && RowScan(o, 0, 0).Done?;
  }

  lemma {:induction false} FilterNextRow(a: Operands, o: Operands, i: nat)
    requires a == o.(on := Always) && i + 1 < |o.left|
    requires FilterRows(o.on, ProductSoFar(a, i, |o.right|)) == JoinedSoFar(o, i, |o.right|)
    ensures FilterRows(o.on, ProductSoFar(a, i + 1, |o.right|)) == JoinedSoFar(o, i + 1, |o.right|)
  {
    JoinedNextRow(o, i);
    ProductNextRow(a, i);
    FilterRow(a, o, i + 1);
  }

  lemma {:induction false} FilterProduct(a: Operands, o: Operands)
    requires a == o.(on := Always) && o.left != []
    ensures FilterRows(o.on, ProductSoFar(a, |o.left| - 1, |o.right|)) == JoinedSoFar(o, |o.left| - 1, |o.right|)
  {
    FilterStart(a, o);
    FilterRow(a, o, 0);
    for i := 0 to |o.left| - 1
      invariant FilterRows(o.on, ProductSoFar(a, i, |o.right|)) == JoinedSoFar(o, i, |o.right|)
    {
      FilterNextRow(a, o, i);
    }
  }

  /**
   A JOIN B ON c gives the rows of FROM A, B WHERE c, in the same order and with the same failures, when the product is
   a true product.
   */
  lemma {:induction false} OnIsWhere(left: seq<CombinedRow>, right: seq<CombinedRow>, on: Condition)
    ensures FilterRows(on, Product(left, right)) == JoinRows(Plain(left, right, on), InnerJoin)
  {
    var a, o := Plain(left, right, Always), Plain(left, right, on);
    Seqs.Empty(Pairs(o, |left|));
    if left != [] {
      var i := |left| - 1;
      FilterProduct(a, o);
      assert Product(left, right) == ProductSoFar(a, i, |right|);
      assert Scan(o, i + 1) == if Scan(o, i).Done? then RowScan(o, i, |right|) else Scan(o, i);
      assert Pairs(o, i + 1) == Pairs(o, i) + RowPairs(o, i, |right|);
    }
  }

  /**
   With the code's cross product the two forms agree exactly when both tables have rows, or neither has, or the
   condition fails on no row of the only table with rows and holds of none.
   */
  lemma {:induction false} JoinOnVersusWhere(left: seq<CombinedRow>, right: seq<CombinedRow>, on: Condition)
    ensures FilterRows(on, Cross(left, right)) == JoinRows(Plain(left, right, on), InnerJoin)
       <==> (left == [] <==> right == []) || (forall row :: row in left + right ==> Test(on, row) == Done(false))
  {
    OnIsWhere(left, right, on);
    FilterNone(on, left + right);
    Seqs.Empty(left);
    Seqs.Empty(right);
    ProductEmpty(left, right);
    if left == [] && right != [] { assert FilterRows(on, Product(left, right)) == Done([]); }
    if left != [] && right == [] { assert FilterRows(on, Product(left, right)) == Done([]); }
  }

  lemma {:induction false} FilterNone(on: Condition, rows: seq<CombinedRow>)
    ensures FilterRows(on, rows) == Done([]) <==> forall row :: row in rows ==> Test(on, row) == Done(false)
  {
    if rows != [] {
      var n := |rows| - 1;
      FilterNone(on, rows[..n]);
      if FilterRows(on, rows[..n]).Done? { Seqs.Empty(FilterRows(on, rows[..n]).value); }
      Seqs.Unsnoc(rows, n);
      assert rows[..n + 1] == rows;
      assert rows[n] in rows;
      assert forall row :: row in rows <==> row in rows[..n] || row == rows[n];
    }
  }

  // ---------------------------------------------------------- longer lists

  lemma {:induction false} NoPairs(o: Operands, n: nat)
    requires o.right == []
    ensures Pairs(o, n) == []
  {
    if n > 0 { NoPairs(o, n - 1); }
  }

  lemma {:induction false} ProductEmpty(left: seq<CombinedRow>, right: seq<CombinedRow>)
    ensures Product(left, right) == [] <==> left == [] || right == []
  {
    var o := Plain(left, right, Always);
    if left != [] && right != [] {
      PairsAre(o, |left|);
      assert Hits(o, 0, 0);
      assert Pair(0, 0) in Pairs(o, |left|);
    } else if right == [] {
      NoPairs(o, |left|);
    }
  }

  /** A row of no table changes nothing. */
  lemma {:induction false} UnitProduct(right: seq<CombinedRow>)
    ensures Product([map[]], right) == right
  {
    var o := Plain([map[]], right, Always);
    UnitRow(right, |right|);
    assert Pairs(o, 1) == Pairs(o, 0) + RowPairs(o, 0, |right|) == RowPairs(o, 0, |right|);
  }

  lemma {:induction false} UnitRow(right: seq<CombinedRow>, n: nat)
    requires n <= |right|
    ensures RowsOf(Plain([map[]], right, Always), RowPairs(Plain([map[]], right, Always), 0, n)) == right[..n]
  {
    if n > 0 {
      var o := Plain([map[]], right, Always);
      UnitRow(right, n - 1);
      assert Hits(o, 0, n - 1);
      RowsSnoc(o, RowPairs(o, 0, n - 1), Pair(0, n - 1));
      assert Merge(map[], right[n - 1]) == right[n - 1];
    }
  }

  /** The product of a list of tables, as SQL means it. */
  function ProductOfAll(tables: seq<seq<CombinedRow>>): seq<CombinedRow> {
    if tables == [] then [map[]] else Product(ProductOfAll(tables[..|tables| - 1]), tables[|tables| - 1])
  }

  /** The code's fold over the FROM list, which starts from no rows. */
  function Folded(tables: seq<seq<CombinedRow>>): seq<CombinedRow> {
    if tables == [] then [] else Cross(Folded(tables[..|tables| - 1]), tables[|tables| - 1])
  }

  function FromRows(tables: seq<seq<CombinedRow>>): seq<CombinedRow> {
    if tables == [] then [map[]] else Folded(tables)
  }

  method ExecuteFrom(tables: seq<seq<CombinedRow>>) returns (rows: seq<CombinedRow>)
    ensures rows == FromRows(tables)
  {
    if tables == [] { return [map[]]; }
    rows := [];
    for i := 0 to |tables|
      invariant rows == Folded(tables[..i])
    {
      assert tables[..i + 1][..i] == tables[..i];
      rows := CrossProduct(rows, tables[i]);
    }
    assert tables[..|tables|] == tables;
  }

  function WithRows(tables: seq<seq<CombinedRow>>): seq<seq<CombinedRow>> {
    if tables == [] then []
    else WithRows(tables[..|tables| - 1]) + if tables[|tables| - 1] == [] then [] else [tables[|tables| - 1]]
  }

  lemma {:induction false} ProductSnoc(tables: seq<seq<CombinedRow>>, last: seq<CombinedRow>)
    ensures ProductOfAll(tables + [last]) == Product(ProductOfAll(tables), last)
  {
    assert (tables + [last])[..|tables|] == tables;
  }

  lemma {:induction false} FoldStep(folded: seq<CombinedRow>, before: seq<seq<CombinedRow>>, last: seq<CombinedRow>)
    requires if before == [] then folded == [] else folded == ProductOfAll(before) && folded != []
    requires last != []
    ensures Cross(folded, last) == ProductOfAll(before + [last]) && Cross(folded, last) != []
  {
    ProductSnoc(before, last);
    if before == [] {
      UnitProduct(last);
    } else {
      ProductEmpty(folded, last);
    }
  }

  /** The fold takes the product of the tables that have rows and ignores the empty ones. */
  lemma {:induction false} EmptyTablesAreIgnored(tables: seq<seq<CombinedRow>>)
    ensures Folded(tables) == if WithRows(tables) == [] then [] else ProductOfAll(WithRows(tables))
    ensures WithRows(tables) != [] ==> Folded(tables) != []
  {
    if tables != [] {
      var n := |tables| - 1;
      var last, before := tables[n], WithRows(tables[..n]);
      EmptyTablesAreIgnored(tables[..n]);
      if last == [] {
        Seqs.Empty(before);
        assert WithRows(tables) == before;
      } else {
        assert WithRows(tables) == before + [last];
        FoldStep(Folded(tables[..n]), before, last);
      }
    }
  }

  lemma {:induction false} WithRowsKeepsAll(tables: seq<seq<CombinedRow>>)
    ensures [] !in tables ==> WithRows(tables) == tables
  {
    if tables != [] && [] !in tables {
      var n := |tables| - 1;
      WithRowsKeepsAll(tables[..n]);
      Seqs.Unsnoc(tables, n);
      assert tables[..n + 1] == tables;
    }
  }

  lemma {:induction false} WithRowsNone(tables: seq<seq<CombinedRow>>)
    ensures WithRows(tables) == [] <==> forall t :: t in tables ==> t == []
  {
    if tables != [] {
      var n := |tables| - 1;
      WithRowsNone(tables[..n]);
      assert tables == tables[..n] + [tables[n]];
      assert tables[n] in tables;
      assert forall t :: t in tables[..n] ==> t in tables;
    }
  }

  lemma {:induction false} ProductOfAllEmpty(tables: seq<seq<CombinedRow>>)
    ensures ProductOfAll(tables) == [] <==> [] in tables
  {
    if tables != [] {
      var n := |tables| - 1;
      ProductOfAllEmpty(tables[..n]);
      assert tables == tables[..n] + [tables[n]];
      ProductEmpty(ProductOfAll(tables[..n]), tables[n]);
    }
  }

  /** FROM gives the product of its tables exactly when none of them is empty or all of them are. */
  lemma {:induction false} FromIsProduct(tables: seq<seq<CombinedRow>>)
    ensures FromRows(tables) == ProductOfAll(tables) <==> [] !in tables || (forall t :: t in tables ==> t == [])
  {
    EmptyTablesAreIgnored(tables);
    WithRowsKeepsAll(tables);
    WithRowsNone(tables);
    ProductOfAllEmpty(tables);
    if tables != [] { assert tables[0] in tables; }
  }
}
