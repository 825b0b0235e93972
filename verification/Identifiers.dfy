/**
 Column resolution (pkg/core/query.go): which table of a combined row a column name means. For an unqualified name the
 answer is stated over the bag of FROM tables, so it cannot depend on the order in which they are listed.
 */
module Identifiers {
  import opened Cells
  import opened Joins
  import Seqs

  /**
   The schema of a table in scope. A stored table with an alias is entered under its own name and under the alias, as
   one schema; `holder` is the name its rows carry.
   */
  datatype Schema = Schema(table: string, holder: string, columns: seq<string>)

  type Schemas = map<string, Schema>

  /** The two not-found errors differ: a missing column reads as NULL, a missing table is an error. */
  datatype Lookup = Found(cell: Cell) | NoColumn | NoTable | Ambiguous

  predicate HasValue(row: CombinedRow, t: string, c: string) { t in row && c in row[t] }

  function CellAt(r: Row, c: string): Cell { if c in r then r[c] else Null }

  predicate Owns(schemas: Schemas, t: string, c: string) { t in schemas && c in schemas[t].columns }

  /** A column written `q.c`. */
  function Qualified(row: CombinedRow, q: string, c: string, schemas: Schemas): Lookup {
    if q !in schemas then NoTable
    else
      var s := schemas[q];
      if c !in s.columns then if HasValue(row, q, c) then Found(row[q][c]) else NoColumn
      else if q in row then Found(CellAt(row[q], c))
      else if s.holder in row && s.holder in schemas && schemas[s.holder] == s then Found(CellAt(row[s.holder], c))
      else NoTable
  }

  /** Exactly one listed table has the column in its schema, once. */
  ghost predicate SoleOwner(names: multiset<string>, schemas: Schemas, c: string, t: string) {
    && names[t] == 1 && Owns(schemas, t, c) && multiset(schemas[t].columns)[c] == 1
    && forall u :: u in names && Owns(schemas, u, c) ==> u == t
  }

  ghost predicate NoOwner(names: multiset<string>, schemas: Schemas, c: string) {
    forall u :: u in names ==> !Owns(schemas, u, c)
  }

  /** No listed table but `t` has a value for the column. */
  ghost predicate SoleHolder(names: multiset<string>, row: CombinedRow, c: string, t: string) {
    forall u :: u in names && HasValue(row, u, c) ==> u == t
  }

  function ValueIn(row: CombinedRow, t: string, c: string): Cell {
    if HasValue(row, t, c) then row[t][c] else Null
  }

  /** An unqualified column means `t`: the one table whose schema has it or, if there is none, whose row has it. */
  ghost predicate Means(row: CombinedRow, c: string, schemas: Schemas, names: multiset<string>, t: string) {
    && SoleHolder(names, row, c, t)
    && if NoOwner(names, schemas, c) then t in names && HasValue(row, t, c) else SoleOwner(names, schemas, c, t)
  }

  ghost predicate Unknown(row: CombinedRow, c: string, schemas: Schemas, names: multiset<string>) {
    NoOwner(names, schemas, c) && forall u :: u in names ==> !HasValue(row, u, c)
  }

  ghost function Unqualified(row: CombinedRow, c: string, schemas: Schemas, names: multiset<string>): Lookup {
    if Unknown(row, c, schemas, names) then NoColumn
    else if t :| Means(row, c, schemas, names, t) then Found(ValueIn(row, t, c))
    else Ambiguous
  }

  // ------------------------------------------------------------ the two loops

  /** How often the column is found in the schemas of the listed tables. */
  function Hits(schemas: Schemas, names: seq<string>, c: string): nat {
    if names == [] then 0
    else Hits(schemas, names[..|names| - 1], c) + HitsIn(schemas, names[|names| - 1], c)
  }

  function HitsIn(schemas: Schemas, t: string, c: string): nat {
    if t in schemas then multiset(schemas[t].columns)[c] else 0
  }

  lemma {:induction false} HitsInOwns(schemas: Schemas, t: string, c: string)
    ensures HitsIn(schemas, t, c) > 0 <==> Owns(schemas, t, c)
  {
    if t in schemas { assert c in multiset(schemas[t].columns) <==> c in schemas[t].columns; }
  }

  /** The bag of a sequence gains its last element. */
  lemma {:induction false} LastOfBag(names: seq<string>)
    requires names != []
    ensures multiset(names) == multiset(names[..|names| - 1]) + multiset{names[|names| - 1]}
  {
    assert names == names[..|names| - 1] + [names[|names| - 1]];
  }

  lemma {:induction false} NoHits(schemas: Schemas, names: seq<string>, c: string)
    ensures Hits(schemas, names, c) == 0 <==> NoOwner(multiset(names), schemas, c)
  {
    if names != [] {
      var t := names[|names| - 1];
      NoHits(schemas, names[..|names| - 1], c);
      LastOfBag(names);
      HitsInOwns(schemas, t, c);
      assert t in multiset(names);
    }
  }

  /** There is a sole owner exactly when there is one hit. */
  lemma {:induction false} OneHit(schemas: Schemas, names: seq<string>, c: string, t: string)
    ensures SoleOwner(multiset(names), schemas, c, t)
       <==> Hits(schemas, names, c) == 1 && t in names && Owns(schemas, t, c)
  {
    if names != [] {
      var init, u := names[..|names| - 1], names[|names| - 1];
      OneHit(schemas, init, c, t);
      NoHits(schemas, init, c);
      LastOfBag(names);
      HitsInOwns(schemas, u, c);
      assert names == init + [u];
      if u == t && Owns(schemas, t, c) { OneHitLast(schemas, init, c, t); }
      if u != t { OneHitBefore(schemas, init, u, c, t); }
    }
  }

  lemma {:induction false} OneHitLast(schemas: Schemas, init: seq<string>, c: string, t: string)
    requires Owns(schemas, t, c)
    ensures SoleOwner(multiset(init) + multiset{t}, schemas, c, t)
       <==> Hits(schemas, init, c) == 0 && HitsIn(schemas, t, c) == 1
  {
    var names := multiset(init) + multiset{t};
    NoHits(schemas, init, c);
    if SoleOwner(names, schemas, c, t) {
      forall u | u in multiset(init) ensures !Owns(schemas, u, c) { assert u in names; }
    }
  }

  lemma {:induction false} OneHitBefore(schemas: Schemas, init: seq<string>, u: string, c: string, t: string)
    requires u != t
    ensures SoleOwner(multiset(init) + multiset{u}, schemas, c, t) <==>
      SoleOwner(multiset(init), schemas, c, t) && !Owns(schemas, u, c)
  {
    var names := multiset(init) + multiset{u};
    assert u in names;
    assert forall v :: v in names <==> v in multiset(init) || v == u;
  }

  datatype Choice = Nobody | Table(name: string)

  /** What the search knows: the table it chose, and whether another one turned up. */
  ghost predicate Settled(
    row: CombinedRow, c: string, schemas: Schemas, names: seq<string>, n: nat, choice: Choice, clash: bool)
    requires n <= |names|
  {
    var all, seen := multiset(names), multiset(names[..n]);
    match choice
    case Nobody => !clash && NoOwner(all, schemas, c) && (forall u :: u in seen ==> !HasValue(row, u, c))
    case Table(t) =>
      && t in all
      && (NoOwner(all, schemas, c) ==> HasValue(row, t, c) && t in seen && (clash <==> !SoleHolder(seen, row, c, t)))
      && (!NoOwner(all, schemas, c) ==>
            Owns(schemas, t, c) && (clash <==> !SoleOwner(all, schemas, c, t) || !SoleHolder(seen, row, c, t)))
  }

  lemma {:induction false} SettledAnswer(
    row: CombinedRow, c: string, schemas: Schemas, names: seq<string>, choice: Choice, clash: bool)
    requires Settled(row, c, schemas, names, |names|, choice, clash)
    ensures Unqualified(row, c, schemas, multiset(names)) ==
      if clash then Ambiguous else match choice case Nobody => NoColumn case Table(t) => Found(ValueIn(row, t, c))
  {
    var all := multiset(names);
    assert names[..|names|] == names;
    match choice
    case Nobody =>
    case Table(t) =>
      if !clash { assert Means(row, c, schemas, all, t); }
      forall u | Means(row, c, schemas, all, u) ensures u == t && !clash {
        if NoOwner(all, schemas, c) { assert t in all && HasValue(row, t, c); }
      }
  }

  lemma {:induction false} SettledStep(
    row: CombinedRow, c: string, schemas: Schemas, names: seq<string>, n: nat, choice: Choice, clash: bool)
    requires n < |names| && Settled(row, c, schemas, names, n, choice, clash)
    ensures var t := names[n];
      Settled(row, c, schemas, names, n + 1,
        if HasValue(row, t, c) && choice.Nobody? then Table(t) else choice,
        clash || (HasValue(row, t, c) && choice.Table? && choice.name != t))
  {
    var t := names[n];
    Seqs.Unsnoc(names, n);
    assert multiset(names[..n + 1]) == multiset(names[..n]) + multiset{t};
    assert t in names && t in multiset(names);
    assert forall u :: u in multiset(names[..n + 1]) <==> u in multiset(names[..n]) || u == t;
  }

  /** An unqualified column: the schemas first, then the rows. */
  method EvaluateIdentifier(row: CombinedRow, c: string, schemas: Schemas, names: seq<string>) returns (r: Lookup)
    ensures r == Unqualified(row, c, schemas, multiset(names))
  {
    var found, possible, value := SearchSchemas(row, c, schemas, names);
    NoHits(schemas, names, c);
    if found.Table? { OneHit(schemas, names, c, found.name); }
    for i := 0 to |names|
      invariant Settled(row, c, schemas, names, i, found, possible != [])
      invariant found.Table? ==> value == ValueIn(row, found.name, c)
    {
      var t := names[i];
      SettledStep(row, c, schemas, names, i, found, possible != []);
      if HasValue(row, t, c) {
        if found.Table? && found.name != t {
          possible := possible + [t];
        } else if found.Nobody? {
          found, value := Table(t), row[t][c];
        }
      }
    }
    SettledAnswer(row, c, schemas, names, found, possible != []);
    if possible != [] { return Ambiguous; }
    if found.Nobody? { return NoColumn; }
    r := Found(value);
  }

  /** The schemas of the listed tables, column by column. */
  method SearchSchemas(row: CombinedRow, c: string, schemas: Schemas, names: seq<string>)
    returns (found: Choice, possible: seq<string>, value: Cell)
    ensures |possible| + (if found.Table? then 1 else 0) == Hits(schemas, names, c)
    ensures possible != [] ==> found.Table?
    ensures found.Table? ==> found.name in names && Owns(schemas, found.name, c) && value == ValueIn(row, found.name, c)
  {
    found, possible, value := Nobody, [], Null;
    for i := 0 to |names|
      invariant |possible| + (if found.Table? then 1 else 0) == Hits(schemas, names[..i], c)
      invariant possible != [] ==> found.Table?
      invariant found.Table? ==>
        found.name in names && Owns(schemas, found.name, c) && value == ValueIn(row, found.name, c)
    {
      var t := names[i];
      ghost var before := Hits(schemas, names[..i], c);
      assert names[..i + 1][..i] == names[..i];
      if t in schemas {
        var columns := schemas[t].columns;
        for j := 0 to |columns|
          invariant |possible| + (if found.Table? then 1 else 0) == before + multiset(columns[..j])[c]
          invariant possible != [] ==> found.Table?
          invariant found.Table? ==>
            found.name in names && Owns(schemas, found.name, c) && value == ValueIn(row, found.name, c)
        {
          Seqs.Unsnoc(columns, j);
          if columns[j] == c {
            if found.Table? {
              possible := possible + [t];
            } else {
              found, value := Table(t), ValueIn(row, t, c);
            }
          }
        }
        assert columns[..|columns|] == columns;
      }
    }
    assert names[..|names|] == names;
  }
}
