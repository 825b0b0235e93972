/**
 The key by which UNION tells rows apart (pkg/core/query.go): the values of the row in the order of its column names,
 rendered and joined; NULL is rendered as the word NULL, and the names themselves are not part of the key.
 */
module RowKeys {
  import opened Cells
  import opened GroupKeys
  import opened Dedup
  import Keys
  import U = Unions
  import Seqs

  type ResultRow = map<string, Cell>

  type Render = Cell -> string

  // ------------------------------------------------------ columns in order

  /** In Go's string order, which Keys.KeyOfEmbeds turns into the order of numbers. */
  predicate Ascending(cols: seq<string>) {
    forall i, j :: 0 <= i < j < |cols| ==> Keys.KeyOf(cols[i]) < Keys.KeyOf(cols[j])
  }

  /** The names, sorted. */
  ghost predicate Lists(names: set<string>, cols: seq<string>) {
    Ascending(cols) && forall c :: c in cols <==> c in names
  }

  lemma {:induction false} SameKeySameName(a: string, b: string)
    ensures Keys.KeyOf(a) == Keys.KeyOf(b) <==> a == b
  {
    Keys.KeyOfEmbeds(a, b);
  }

  lemma {:induction false} Inserted(cols: seq<string>, i: nat, name: string)
    requires Ascending(cols) && i <= |cols|
    requires forall j :: 0 <= j < i ==> Keys.KeyOf(cols[j]) < Keys.KeyOf(name)
    requires i < |cols| ==> Keys.KeyOf(name) < Keys.KeyOf(cols[i])
    ensures var r := cols[..i] + [name] + cols[i..];
      Ascending(r) && forall c :: c in r <==> c in cols || c == name
  {
    Seqs.Cut(cols, i);
  }

  /** A name put in its place. */
  method InsertName(cols: seq<string>, name: string) returns (r: seq<string>)
    requires Ascending(cols) && name !in cols
    ensures Ascending(r) && forall c :: c in r <==> c in cols || c == name
  {
    var i := 0;
    while i < |cols| && Keys.KeyOf(cols[i]) < Keys.KeyOf(name)
      invariant 0 <= i <= |cols| && forall j :: 0 <= j < i ==> Keys.KeyOf(cols[j]) < Keys.KeyOf(name)
    {
      i := i + 1;
    }
    if i < |cols| { SameKeySameName(cols[i], name); }
    Inserted(cols, i, name);
    r := cols[..i] + [name] + cols[i..];
  }

  /** The names of a row, sorted. */
  method GetColumnNames(row: ResultRow) returns (cols: seq<string>)
    ensures Lists(row.Keys, cols)
  {
    cols := [];
    var rest := row.Keys;
    while rest != {}
      invariant rest <= row.Keys && Ascending(cols) && forall c :: c in cols <==> c in row && c !in rest
      decreases rest
    {
      var c :| c in rest;
      cols := InsertName(cols, c);
      rest := rest - {c};
    }
  }

  /** The least name of a set. */
  lemma {:induction false} LeastName(names: set<string>) returns (least: string)
    requires names != {}
    ensures least in names && forall c :: c in names && c != least ==> Keys.KeyOf(least) < Keys.KeyOf(c)
    decreases names
  {
    var name :| name in names;
    var rest := names - {name};
    assert forall c :: c in names <==> c in rest || c == name;
    least := name;
    if rest != {} {
      var other := LeastName(rest);
      SameKeySameName(other, name);
      if Keys.KeyOf(other) < Keys.KeyOf(name) { least := other; }
    }
  }

  lemma {:induction false} HasListing(names: set<string>) returns (cols: seq<string>)
    ensures Lists(names, cols)
    decreases names
  {
    if names == {} {
      cols := [];
    } else {
      var least := LeastName(names);
      var others := HasListing(names - {least});
      cols := [least] + others;
      forall i | 0 <= i < |others| ensures Keys.KeyOf(least) < Keys.KeyOf(others[i]) { assert others[i] in others; }
    }
  }

  /** The first name of a sorted list is the least. */
  lemma {:induction false} SameFirst(names: set<string>, a: seq<string>, b: seq<string>)
    requires Lists(names, a) && Lists(names, b) && a != []
    ensures b != [] && a[0] == b[0]
  {
    assert a[0] in b && (b != [] ==> b[0] in a);
    var i :| 0 <= i < |b| && b[i] == a[0];
    var j :| 0 <= j < |a| && a[j] == b[0];
  }

  lemma {:induction false} ListingSize(names: set<string>, cols: seq<string>)
    requires Lists(names, cols)
    ensures |cols| == |names|
    decreases |cols|
  {
    if cols == [] {
      assert forall c :: c !in names;
    } else {
      TailLists(names, cols);
      ListingSize(names - {cols[0]}, cols[1..]);
    }
  }

  /** There is one sorted list of a set of names. */
  lemma {:induction false} OneListing(names: set<string>, a: seq<string>, b: seq<string>)
    requires Lists(names, a) && Lists(names, b)
    ensures a == b
    decreases |a|
  {
    if a == [] {
      ListingSize(names, a);
      ListingSize(names, b);
    } else {
      SameFirst(names, a, b);
      TailLists(names, a);
      TailLists(names, b);
      OneListing(names - {a[0]}, a[1..], b[1..]);
      Seqs.Uncons(a, 0);
      Seqs.Uncons(b, 0);
      assert a[0..] == a && b[0..] == b;
    }
  }

  lemma {:induction false} TailLists(names: set<string>, cols: seq<string>)
    requires Lists(names, cols) && cols != []
    ensures Lists(names - {cols[0]}, cols[1..])
  {
    var tail := cols[1..];
    forall c ensures c in tail <==> c in names && c != cols[0] {
      assert cols == [cols[0]] + tail;
      if c in tail { var i :| 0 <= i < |tail| && tail[i] == c; assert cols[i + 1] == c; }
    }
  }

  lemma {:induction false} ListingExists(names: set<string>)
    ensures exists cols :: Lists(names, cols)
  {
    var cols := HasListing(names);
  }

  ghost function Columns(row: ResultRow): (cols: seq<string>)
    ensures Lists(row.Keys, cols)
  {
    ListingExists(row.Keys);
    var cols :| Lists(row.Keys, cols);
    cols
  }

  // ---------------------------------------------------------------- the key

  /** NULL is shown as a word. */
  function Shown(render: Render, c: Cell): string { if c.Null? then "NULL" else render(c) }

  /** The values of the columns, shown in that order. */
  function Parts(render: Render, row: ResultRow, cols: seq<string>): seq<string>
    requires forall c :: c in cols ==> c in row
  {
    seq(|cols|, i requires 0 <= i < |cols| => Shown(render, row[cols[i]]))
  }

  ghost function PartsOf(render: Render, row: ResultRow): seq<string> { Parts(render, row, Columns(row)) }

  ghost function RowKey(render: Render, row: ResultRow): string { Join(PartsOf(render, row)) }

  lemma {:induction false} JoinSnoc(parts: seq<string>, last: string)
    ensures Join(parts + [last]) == if parts == [] then last else Join(parts) + SEPARATOR + last
  {
    if |parts| >= 1 {
      Seqs.TailOfJoin(parts, [last]);
      JoinSnoc(parts[1..], last);
      if |parts| > 1 { assert Join(parts) == parts[0] + SEPARATOR + Join(parts[1..]); }
    }
  }

  /** The key as the loop over the sorted names makes it. */
  method RowToString(render: Render, row: ResultRow) returns (key: string)
    ensures key == RowKey(render, row)
  {
    var cols := GetColumnNames(row);
    OneListing(row.Keys, cols, Columns(row));
    key := "";
    for i := 0 to |cols|
      invariant key == Join(Parts(render, row, cols)[..i])
    {
      ghost var parts := Parts(render, row, cols);
      var value := row[cols[i]];
      var part := if value.Null? then "NULL" else render(value);
      Seqs.Unsnoc(parts, i);
      JoinSnoc(parts[..i], part);
      key := if i == 0 then part else key + SEPARATOR + part;
    }
    assert Parts(render, row, cols)[..|cols|] == Parts(render, row, cols);
  }

  // ------------------------------------------------- which rows share a key

  /** The rows show the same values column by column, the columns being paired by their place in the alphabet. */
  ghost predicate ShownAlike(render: Render, a: ResultRow, b: ResultRow) {
    PartsOf(render, a) == PartsOf(render, b)
  }

  /** The row shares its key with those rows of its width only that show the same values. */
  ghost predicate Told(render: Render, a: ResultRow) {
    forall b: ResultRow :: |b| == |a| && RowKey(render, a) == RowKey(render, b) ==> ShownAlike(render, a, b)
  }

  lemma {:induction false} Width(render: Render, row: ResultRow)
    ensures |PartsOf(render, row)| == |row|
  {
    ListingSize(row.Keys, Columns(row));
    assert |row.Keys| == |row|;
  }

  /** The row with these texts in its columns. */
  ghost function WithTexts(cols: seq<string>, texts: seq<string>): (r: ResultRow)
    requires |texts| == |cols| && Seqs.Distinct(cols)
    ensures forall i :: 0 <= i < |cols| ==> cols[i] in r && r[cols[i]] == Text(texts[i])
    ensures forall c :: c in r <==> c in cols
  {
    if cols == [] then map[]
    else
      var n := |cols| - 1;
      assert cols == cols[..n] + [cols[n]];
      WithTexts(cols[..n], texts[..n])[cols[n] := Text(texts[n])]
  }

  lemma {:induction false} AscendingIsDistinct(cols: seq<string>)
    requires Ascending(cols)
    ensures Seqs.Distinct(cols)
  {
  }

  lemma {:induction false} WithTextsShows(render: Render, cols: seq<string>, texts: seq<string>)
    requires |texts| == |cols| && Ascending(cols) && Seqs.Distinct(cols) && forall s :: render(Text(s)) == s
    ensures PartsOf(render, WithTexts(cols, texts)) == texts
  {
    var r := WithTexts(cols, texts);
    OneListing(r.Keys, cols, Columns(r));
    assert Parts(render, r, cols) == texts;
  }

  /**
   A row's key tells it from all rows of its width that show other values if and only if none of its shown values
   reaches into a separator beside it; text is rendered as it stands.
   */
  lemma {:induction false} ToldExactly(render: Render, a: ResultRow)
    requires forall s :: render(Text(s)) == s
    ensures Told(render, a) <==> Clean(PartsOf(render, a))
  {
    var parts := PartsOf(render, a);
    Width(render, a);
    IdentifiedExactly(parts);
    if Clean(parts) {
      forall b: ResultRow | |b| == |a| && RowKey(render, a) == RowKey(render, b) ensures ShownAlike(render, a, b) {
        Width(render, b);
      }
    } else {
      var other: seq<string> :| |other| == |parts| && Join(other) == Join(parts) && other != parts;
      AscendingIsDistinct(Columns(a));
      WithTextsShows(render, Columns(a), other);
      var b := WithTexts(Columns(a), other);
      Width(render, b);
      assert RowKey(render, a) == RowKey(render, b) && !ShownAlike(render, a, b);
    }
  }

  /** Two rows share a key exactly when they show the same values, if the values of one keep clear of the separators. */
  lemma {:induction false} SameKeyExactly(render: Render, a: ResultRow, b: ResultRow)
    requires |a| == |b| && Clean(PartsOf(render, a))
    ensures RowKey(render, a) == RowKey(render, b) <==> ShownAlike(render, a, b)
  {
    Width(render, a);
    Width(render, b);
    if RowKey(render, a) == RowKey(render, b) { CleanIdentifies(PartsOf(render, a), PartsOf(render, b)); }
  }

  lemma {:induction false} OneColumn(render: Render, name: string, c: Cell)
    ensures PartsOf(render, map[name := c]) == [Shown(render, c)]
  {
    var row: ResultRow := map[name := c];
    OneListing(row.Keys, [name], Columns(row));
    assert Parts(render, row, [name]) == [Shown(render, c)];
  }

  /** Showing hides the column's name, and that a value is NULL, or a number, and not its text. */
  lemma {:induction false} ShowingHides(render: Render, x: string, y: string, c: Cell)
    requires forall s :: render(Text(s)) == s
    ensures ShownAlike(render, map[x := c], map[y := c])
    ensures ShownAlike(render, map[x := Null], map[x := Text("NULL")])
    ensures c != Null ==> ShownAlike(render, map[x := c], map[x := Text(render(c))])
  {
    OneColumn(render, x, c);
    OneColumn(render, y, c);
    OneColumn(render, x, Null);
    OneColumn(render, x, Text("NULL"));
    OneColumn(render, x, Text(render(c)));
  }

  /** UNION with this key: every row of every SELECT is in the result, or one that shows the same values is. */
  lemma {:induction false} UnionShowsEveryRow(
    render: Render, key: ResultRow -> string, q: U.Query, width: nat, row: ResultRow)
    requires (forall r :: key(r) == RowKey(render, r)) && U.Wide(U.Leaves(q), width)
    requires q.Union? && !q.all && U.Bare(q.left) && U.Bare(q.right) && q.tail.order.None? && q.tail.limit.NoLimit?
    requires U.Evaluate(key, q).Done? && row in U.Leaves(q) && Clean(PartsOf(render, row))
    ensures exists kept :: kept in U.Evaluate(key, q).value && ShownAlike(render, row, kept)
  {
    var rows := U.Leaves(q);
    U.PlainUnionIsKeep(key, q);
    KeepKeys(key, {}, rows);
    assert key(row) in KeySet(key, rows);
    assert key(row) in KeySet(key, Keep(key, rows));
    var kept :| kept in Keep(key, rows) && key(kept) == key(row);
    assert kept in rows && |kept| == width == |row|;
    SameKeyExactly(render, row, kept);
  }
}
