/**
 The query evaluator (pkg/core/query.go) over an abstract syntax tree: conditions, values, correlated subqueries, joins
 and the FROM clause call each other, and every call is on a smaller tree.
 */
module Evaluator {
  import opened Cells
  import opened Joins
  import opened FromClause
  import opened Identifiers
  import opened Options

  datatype Arithmetic = Plus | Minus | Times | Divide
  datatype Operator = Equal | NotEqual | Less | LessOrEqual | Greater | GreaterOrEqual

  datatype Expr =
    | Column(qualifier: string, name: string)
    | Literal(cell: Cell)
    | Negate(e: Expr)
    | Binary(op: Arithmetic, l: Expr, r: Expr)
    | Scalar(sub: Select)
    | Exists(sub: Select)
    | And(l: Expr, r: Expr)
    | Or(l: Expr, r: Expr)
    | IsNull(e: Expr, negated: bool)
    | Compare(cmp: Operator, l: Expr, r: Expr)
    | InSelect(e: Expr, sub: Select, negated: bool)
    | InList(e: Expr, items: seq<Expr>, negated: bool)
    | IsLike(e: Expr, pattern: Expr, negated: bool)
    | Aggregate(name: string, arg: string)
    | Unsupported

  datatype SelectItem = Star(table: string) | Named(e: Expr, name: string)

  datatype Source =
    | Stored(table: string, alias: string)
    | Derived(sub: Select, alias: string)
    | Joined(left: Source, right: Source, kind: JoinType, on: Option<Expr>)

  datatype SortKey = SortKey(e: Expr, descending: bool)

  datatype Limit = NoLimit | Limit(offset: nat, count: nat)

  datatype Select = Select(
    items: seq<SelectItem>,
    from: seq<Source>,
    filter: Option<Expr>,
    grouping: seq<Expr>,
    order: seq<SortKey>,
    limit: Limit)

  type ResultRow = map<string, Cell>

  datatype StoredTable = StoredTable(columns: seq<string>, rows: seq<Row>)

  /** The database a query reads, and the parts of evaluation that are calls out of this module. */
  datatype Env = Env(
    tables: map<string, StoredTable>,
    parse: Parse,
    compare: (Operator, Cell, Cell) -> Outcome<bool>,
    same: (Cell, Cell) -> bool,
    like: (Cell, Cell) -> Outcome<bool>,
    star: (string, CombinedRow) -> Outcome<ResultRow>,
    aggregate: (seq<SelectItem>, seq<Expr>, seq<CombinedRow>, Schemas, multiset<string>) -> Outcome<seq<ResultRow>>,
    sortRows: (seq<SortKey>, seq<CombinedRow>, Schemas, multiset<string>) -> seq<CombinedRow>,
    sortResults: (seq<SortKey>, seq<ResultRow>) -> seq<ResultRow>)

  // ---------------------------------------------------- names and schemas

  /** The name a table's rows carry. */
  function KeyOf(table: string, alias: string): string { if alias == "" then table else alias }

  /** The tables of a FROM item, in order; a derived table is not among them. */
  function SourceNames(s: Source): seq<string> {
    match s
    case Stored(t, a) => [KeyOf(t, a)]
    case Derived(_, _) => []
    case Joined(l, r, _, _) => SourceNames(l) + SourceNames(r)
  }

  function Names(from: seq<Source>): seq<string> {
    if from == [] then [] else Names(from[..|from| - 1]) + SourceNames(from[|from| - 1])
  }

  function StoredSchemas(t: string, a: string, columns: seq<string>): Schemas {
    var schema := Schema(t, KeyOf(t, a), columns);
    map[t := schema][KeyOf(t, a) := schema]
  }

  /** Tables and columns a query block names outside its own FROM list, as the code collects them. */
  function Refs(e: Expr): set<string> {
    match e
    case Column(q, _) => if q == "" then {} else {q}
    case Scalar(s) => SelectRefs(s)
    case And(l, r) => Refs(l) + Refs(r)
    case Or(l, r) => Refs(l) + Refs(r)
    case Compare(_, l, r) => Refs(l) + Refs(r)
    case InSelect(x, s, _) => Refs(x) + SelectRefs(s)
    case InList(x, _, _) => Refs(x)
    case IsLike(x, p, _) => Refs(x) + Refs(p)
    case IsNull(x, _) => Refs(x)
    case Binary(_, l, r) => Refs(l) + Refs(r)
    case Negate(x) => Refs(x)
    case _ => {}
  }

  function SelectRefs(s: Select): set<string> {
    (set i, t | 0 <= i < |s.items| && s.items[i].Named? && t in Refs(s.items[i].e) :: t)
    + (if s.filter.Some? then Refs(s.filter.value) else {})
    + (set i, t | 0 <= i < |s.from| && t in SourceRefs(s.from[i]) :: t)
    + (set i, t | 0 <= i < |s.grouping| && t in Refs(s.grouping[i]) :: t)
    + (set i, t | 0 <= i < |s.order| && t in Refs(s.order[i].e) :: t)
  }

  function SourceRefs(s: Source): set<string> {
    match s
    case Stored(_, _) => {}
    case Derived(q, _) => SelectRefs(q)
    case Joined(l, r, _, on) => (if on.Some? then Refs(on.value) else {}) + SourceRefs(l) + SourceRefs(r)
  }

  // ------------------------------------------------------------ evaluation

  /** A comparison reads an operand that was not found as NULL. */
  function OrNull(x: Outcome<Cell>): Outcome<Cell> { if x.NotFound? then Done(Null) else x }

  /** A comparison with NULL only knows equality. */
  function CompareCells(env: Env, op: Operator, l: Cell, r: Cell): Outcome<bool> {
    if l.Null? || r.Null? then
      Done(if op == Equal then l == r else if op == NotEqual then l != r else false)
    else env.compare(op, l, r)
  }

  ghost function ColumnValue(
    q: string, c: string, row: CombinedRow, schemas: Schemas, names: multiset<string>): Outcome<Cell> {
    if HasValue(row, "result", c) then Done(row["result"][c])
    else
      match if q == "" then Unqualified(row, c, schemas, names) else Qualified(row, q, c, schemas)
      case Found(cell) => Done(cell)
      case NoColumn => Done(Null)
      case NoTable => NotFound
      case Ambiguous => Failed
  }

  function Multiplied(x: real, y: real): real { x * y }

  function Apply(env: Env, op: Arithmetic, l: Cell, r: Cell): Outcome<Cell> {
    var x, y := NumericValue(env.parse, l), NumericValue(env.parse, r);
    if !x.Num? || !y.Num? then Failed
    else
      match op
      case Plus => Done(Real(x.r + y.r))
      case Minus => Done(Real(x.r - y.r))
      case Times => Done(Real(Multiplied(x.r, y.r)))
      case Divide => if y.r == 0.0 then Failed else Done(Real(x.r / y.r))
  }

  ghost function Only(r: ResultRow): Cell
    requires |r| == 1
  {
    assert r.Keys != {};
    var k :| k in r; r[k]
  }

  /** A scalar subquery must give at most one row of one column. */
  ghost function ScalarOf(results: seq<ResultRow>): Outcome<Cell> {
    if |results| > 1 then Failed
    else if |results| == 0 || |results[0]| == 0 then Done(Null)
    else if |results[0]| > 1 then Failed
    else Done(Only(results[0]))
  }

  /** Whether one of the single-column rows equals the value. */
  ghost function AnyRowIs(env: Env, x: Cell, results: seq<ResultRow>): Outcome<bool> {
    if results == [] then Done(false)
    else if |results[0]| != 1 then Failed
    else if env.same(x, Only(results[0])) then Done(true)
    else AnyRowIs(env, x, results[1..])
  }

  /** `IN` and `NOT IN` agree on failures and differ on the answer. */
  function Answer(found: Outcome<bool>, negated: bool): Outcome<bool> {
    if found.Done? then Done(found.value != negated) else found
  }

  /** A unary minus. */
  function Negated(env: Env, x: Outcome<Cell>): Outcome<Cell> {
    if !x.Done? then x
    else match NumericValue(env.parse, x.value) case Num(n) => Done(Real(-n)) case NotANumber => Failed
  }

  /** An operator of two values: the left one fails first. */
  function Combined(env: Env, op: Arithmetic, x: Outcome<Cell>, y: Outcome<Cell>): Outcome<Cell> {
    if !x.Done? then x else if !y.Done? then y else Apply(env, op, x.value, y.value)
  }

  function Compared(env: Env, op: Operator, x: Outcome<Cell>, y: Outcome<Cell>): Outcome<bool> {
    if !x.Done? then x.Rethrow() else if !y.Done? then y.Rethrow() else CompareCells(env, op, x.value, y.value)
  }

  function AndThen(x: Outcome<bool>, y: Outcome<bool>): Outcome<bool> { if !x.Done? || !x.value then x else y }

  function OrElse(x: Outcome<bool>, y: Outcome<bool>): Outcome<bool> { if !x.Done? || x.value then x else y }

  function NullTest(x: Outcome<Cell>, negated: bool): Outcome<bool> {
    if x.Done? then Done((x.value == Null) != negated) else x.Rethrow()
  }

  ghost function ScalarResult(results: Outcome<seq<ResultRow>>): Outcome<Cell> {
    if results.Done? then ScalarOf(results.value) else results.Rethrow()
  }

  function ExistsResult(results: Outcome<seq<ResultRow>>): Outcome<bool> {
    if results.Done? then Done(|results.value| > 0) else results.Rethrow()
  }

  /** Membership in a subquery's result; NULL is in nothing and not in nothing. */
  ghost function MemberOfResult(
    env: Env, x: Outcome<Cell>, results: Outcome<seq<ResultRow>>, negated: bool): Outcome<bool> {
    if !x.Done? then x.Rethrow()
    else if !results.Done? then results.Rethrow()
    else if x.value == Null then Done(false)
    else Answer(AnyRowIs(env, x.value, results.value), negated)
  }

  function LikeResult(env: Env, x: Outcome<Cell>, y: Outcome<Cell>, negated: bool): Outcome<bool> {
    if !x.Done? then x.Rethrow()
    else if !y.Done? then y.Rethrow()
    else if x.value == Null || y.value == Null then Done(false)
    else Answer(env.like(x.value, y.value), negated)
  }

  ghost function Value(env: Env, e: Expr, row: CombinedRow, schemas: Schemas, names: multiset<string>): Outcome<Cell>
    decreases e
  {
    match e
    case Column(q, c) => ColumnValue(q, c, row, schemas, names)
    case Literal(cell) => Done(cell)
    case Negate(x) => Negated(env, Value(env, x, row, schemas, names))
    case Binary(op, l, r) => Combined(env, op, Value(env, l, row, schemas, names), Value(env, r, row, schemas, names))
    case Scalar(sub) => ScalarResult(Subquery(env, sub, row, schemas))
    case _ => Failed
  }

  ghost function Holds(env: Env, e: Expr, row: CombinedRow, schemas: Schemas, names: multiset<string>): Outcome<bool>
    decreases e, 0
  {
    match e
    case Exists(sub) => ExistsResult(Subquery(env, sub, row, schemas))
    case And(l, r) => AndThen(Holds(env, l, row, schemas, names), Holds(env, r, row, schemas, names))
    case Or(l, r) => OrElse(Holds(env, l, row, schemas, names), Holds(env, r, row, schemas, names))
    case IsNull(x, negated) => NullTest(Value(env, x, row, schemas, names), negated)
    case Compare(op, l, r) =>
      Compared(env, op, OrNull(Value(env, l, row, schemas, names)), OrNull(Value(env, r, row, schemas, names)))
    case InSelect(l, sub, negated) =>
      MemberOfResult(env, OrNull(Value(env, l, row, schemas, names)), Subquery(env, sub, row, schemas), negated)
    case InList(l, items, negated) =>
      MemberOfList(env, OrNull(Value(env, l, row, schemas, names)), items, negated, row, schemas, names)
    case IsLike(l, pattern, negated) =>
      LikeResult(env, OrNull(Value(env, l, row, schemas, names)), Value(env, pattern, row, schemas, names), negated)
    case _ => Failed
  }

  /** A condition as a join or a filter tests it. */
  ghost function ConditionOf(env: Env, e: Expr, schemas: Schemas, names: multiset<string>): Condition
    decreases e, 1
  {
    On((row: CombinedRow) => Holds(env, e, row, schemas, names))
  }

  ghost function MemberOfList(
    env: Env, x: Outcome<Cell>, items: seq<Expr>, negated: bool, row: CombinedRow, schemas: Schemas,
    names: multiset<string>): Outcome<bool>
    decreases items, 1
  {
    if !x.Done? then x.Rethrow()
    else if x.value == Null then Done(false)
    else Answer(AnyItemIs(env, x.value, items, row, schemas, names), negated)
  }

  ghost function AnyItemIs(
    env: Env, x: Cell, items: seq<Expr>, row: CombinedRow, schemas: Schemas, names: multiset<string>): Outcome<bool>
    decreases items, 0
  {
    if items == [] then Done(false)
    else
      var v := Value(env, items[0], row, schemas, names);
      if !v.Done? then v.Rethrow()
      else if env.same(x, v.value) then Done(true)
      else AnyItemIs(env, x, items[1..], row, schemas, names)
  }

  /** The filter of a query block; in a subquery the tables of the outer row override the block's own. */
  ghost function Filtered(
    env: Env, filter: Option<Expr>, rows: seq<CombinedRow>, outer: CombinedRow, schemas: Schemas,
    names: multiset<string>): Outcome<seq<CombinedRow>>
    decreases filter, |rows|
  {
    if filter.None? then Done(rows)
    else if rows == [] then Done([])
    else
      var n := |rows| - 1;
      var merged := Merge(rows[n], outer);
      Extend(Filtered(env, filter, rows[..n], outer, schemas, names), Holds(env, filter.value, merged, schemas, names),
             merged)
  }

  ghost function ProjectRow(
    env: Env, items: seq<SelectItem>, row: CombinedRow, schemas: Schemas, names: multiset<string>): Outcome<ResultRow>
    decreases items, 0
  {
    if items == [] then Done(map[])
    else
      var n := |items| - 1;
      var item := match items[n]
        case Star(t) => env.star(t, row)
        case Named(e, name) => Labelled(name, Value(env, e, row, schemas, names));
      Beside(ProjectRow(env, items[..n], row, schemas, names), item)
  }

  function Labelled(name: string, v: Outcome<Cell>): Outcome<ResultRow> {
    if v.Done? then Done(map[name := v.value]) else v.Rethrow()
  }

  /** The columns so far and those of one more item, which win where names coincide. */
  function Beside(before: Outcome<ResultRow>, item: Outcome<ResultRow>): Outcome<ResultRow> {
    if !before.Done? then before else if !item.Done? then item else Done(before.value + item.value)
  }

  function Appended(before: Outcome<seq<ResultRow>>, last: Outcome<ResultRow>): Outcome<seq<ResultRow>> {
    if !before.Done? then before else if !last.Done? then last.Rethrow() else Done(before.value + [last.value])
  }

  ghost function Project(
    env: Env, items: seq<SelectItem>, rows: seq<CombinedRow>, schemas: Schemas, names: multiset<string>)
    : Outcome<seq<ResultRow>>
    decreases items, |rows| + 1
  {
    if rows == [] then Done([])
    else
      var n := |rows| - 1;
      Appended(Project(env, items, rows[..n], schemas, names), ProjectRow(env, items, rows[n], schemas, names))
  }

  /** Grouped queries, and those that select an aggregate or a subquery, go through the aggregate path. */
  predicate IsAggregate(s: Select) {
    || s.grouping != []
    || exists i :: 0 <= i < |s.items| && s.items[i].Named? && (s.items[i].e.Aggregate? || s.items[i].e.Scalar?)
  }

  function Slice<T>(limit: Limit, rows: seq<T>): seq<T> {
    match limit
    case NoLimit => rows
    case Limit(offset, count) =>
      if offset >= |rows| then []
      else rows[offset..][..if count > |rows| - offset then |rows| - offset else count]
  }

  ghost function SourceSchemas(env: Env, s: Source): Outcome<Schemas>
    decreases s
  {
    match s
    case Stored(t, a) => if t in env.tables then Done(StoredSchemas(t, a, env.tables[t].columns)) else NotFound
    case Derived(q, a) =>
      if a == "" then Failed
      else
        (var rs := Query(env, q);
         if !rs.Done? then rs.Rethrow() else Done(map[a := Schema("", a, DerivedColumns(rs.value))]))
    case Joined(l, r, _, _) =>
      var x := SourceSchemas(env, l);
      if !x.Done? then x
      else
        var y := SourceSchemas(env, r);
        if !y.Done? then y else Done(x.value + y.value)
  }

  /** The columns of the first row of a derived table, in some fixed order. */
  ghost function DerivedColumns(results: seq<ResultRow>): seq<string> {
    if results == [] then [] else Listed(results[0].Keys)
  }

  ghost function Listed(s: set<string>): seq<string>
    decreases s
  {
    if s == {} then [] else var x :| x in s; [x] + Listed(s - {x})
  }

  ghost function AllSchemas(env: Env, from: seq<Source>): Outcome<Schemas>
    decreases from
  {
    if from == [] then Done(map[])
    else
      var n := |from| - 1;
      var before := AllSchemas(env, from[..n]);
      if !before.Done? then before
      else
        var last := SourceSchemas(env, from[n]);
        if !last.Done? then last else Done(before.value + last.value)
  }

  /** A row of NULLs for each of the tables. */
  function NullRows(names: seq<string>, schemas: Schemas): CombinedRow {
    map t | t in names && t in schemas :: (map c | c in schemas[t].columns :: Null)
  }

  /** The condition of a natural join: equal values in every common column. */
  ghost function NaturallyJoined(
    env: Env, lt: string, rt: string, common: seq<string>, row: CombinedRow, schemas: Schemas, names: multiset<string>)
    : Outcome<bool> {
    if common == [] then Done(true)
    else
      var n := |common| - 1;
      var before := NaturallyJoined(env, lt, rt, common[..n], row, schemas, names);
      if !before.Done? || !before.value then before
      else
        var x := OrNull(ColumnValue(lt, common[n], row, schemas, names));
        var y := OrNull(ColumnValue(rt, common[n], row, schemas, names));
        if !x.Done? then x.Rethrow() else if !y.Done? then y.Rethrow() else CompareCells(env, Equal, x.value, y.value)
  }

  function CommonColumns(left: seq<string>, right: seq<string>): seq<string> {
    if right == [] then []
    else
      var n := |right| - 1;
      CommonColumns(left, right[..n]) + if right[n] in left then [right[n]] else []
  }

  function ColumnsOf(schemas: Schemas, t: string): seq<string> { if t in schemas then schemas[t].columns else [] }

  ghost function SourceRows(env: Env, s: Source, schemas: Schemas): Outcome<seq<CombinedRow>>
    decreases s
  {
    match s
    case Stored(t, a) =>
      if t in env.tables then Done(Tagged(KeyOf(t, a), env.tables[t].rows)) else NotFound
    case Derived(q, a) =>
      if a == "" then Failed
      else
        (var rs := Query(env, q);
         if !rs.Done? then rs.Rethrow()
         else if forall k :: 0 <= k < |rs.value| ==> Storable(rs.value[k]) then Done(Tagged(a, rs.value))
         else Failed)
    case Joined(l, r, kind, on) =>
      var lt, rt := SourceNames(l), SourceNames(r);
      if lt == [] || rt == [] then Failed
      else
        JoinAll(SourceRows(env, l, schemas), SourceRows(env, r, schemas), kind,
                JoinCondition(env, kind, on, lt, rt, schemas), lt, rt, schemas)
  }

  /** The ON condition; without one an inner join is a natural join, or has no condition when no column is common. */
  ghost function JoinCondition(
    env: Env, kind: JoinType, on: Option<Expr>, lt: seq<string>, rt: seq<string>, schemas: Schemas): Option<Condition>
    requires lt != [] && rt != []
    decreases on
  {
    var names := multiset(lt + rt);
    if on.Some? then Some(ConditionOf(env, on.value, schemas, names))
    else
      var common := CommonColumns(ColumnsOf(schemas, lt[0]), ColumnsOf(schemas, rt[0]));
      if kind.InnerJoin? && common != [] then
        Some(On((row: CombinedRow) => NaturallyJoined(env, lt[0], rt[0], common, row, schemas, names)))
      else None
  }

  /** An inner join without a condition is a cross product. */
  function JoinAll(x: Outcome<seq<CombinedRow>>, y: Outcome<seq<CombinedRow>>, kind: JoinType, on: Option<Condition>,
                   lt: seq<string>, rt: seq<string>, schemas: Schemas): Outcome<seq<CombinedRow>> {
    if !x.Done? then x
    else if !y.Done? then y
    else
      match on
      case Some(c) => JoinRows(JoinOperands(x.value, y.value, c, lt, rt, schemas), kind)
      case None =>
        if kind.InnerJoin? then Done(Cross(x.value, y.value))
        else JoinRows(JoinOperands(x.value, y.value, Always, lt, rt, schemas), kind)
  }

  function JoinOperands(
    left: seq<CombinedRow>, right: seq<CombinedRow>, on: Condition, lt: seq<string>, rt: seq<string>, schemas: Schemas)
    : Operands {
    Operands(left, right, on, NullRows(lt, schemas), NullRows(rt, schemas))
  }

  /** A result row can become a row of a derived table unless it holds NULL or a COUNT. */
  predicate Storable(row: ResultRow) { forall c :: c in row ==> CanStore(row[c]) }

  function Tagged(key: string, rows: seq<Row>): seq<CombinedRow> {
    seq(|rows|, k requires 0 <= k < |rows| => map[key := rows[k]])
  }

  ghost function FoldedRows(env: Env, from: seq<Source>, schemas: Schemas): Outcome<seq<CombinedRow>>
    decreases from, 0
  {
    if from == [] then Done([])
    else
      var n := |from| - 1;
      var before := FoldedRows(env, from[..n], schemas);
      if !before.Done? then before
      else
        var last := SourceRows(env, from[n], schemas);
        if !last.Done? then last else Done(Cross(before.value, last.value))
  }

  ghost function FromRowsOf(env: Env, from: seq<Source>, schemas: Schemas): Outcome<seq<CombinedRow>>
    decreases from, 1
  {
    if from == [] then Done([map[]]) else FoldedRows(env, from, schemas)
  }

  /** ORDER BY, LIMIT and the projection of a query without aggregates. */
  ghost function Selected(
    env: Env, items: seq<SelectItem>, order: seq<SortKey>, limit: Limit, kept: Outcome<seq<CombinedRow>>,
    schemas: Schemas, names: multiset<string>)
    : Outcome<seq<ResultRow>>
    decreases items
  {
    if !kept.Done? then kept.Rethrow()
    else
      var ordered := if order == [] then kept.value else env.sortRows(order, kept.value, schemas, names);
      Project(env, items, Slice(limit, ordered), schemas, names)
  }

  /** ORDER BY and LIMIT over results. */
  function Finished(env: Env, s: Select, results: Outcome<seq<ResultRow>>): Outcome<seq<ResultRow>> {
    if results.Done? then Done(Slice(s.limit, Sorted(env, s.order, results.value))) else results
  }

  /** A query of its own. */
  ghost function Query(env: Env, s: Select): Outcome<seq<ResultRow>>
    decreases s
  {
    var schemas := AllSchemas(env, s.from);
    if !schemas.Done? then schemas.Rethrow()
    else
      var rows := FromRowsOf(env, s.from, schemas.value);
      if !rows.Done? then rows.Rethrow()
      else
        var names := multiset(Names(s.from));
        var kept := Filtered(env, s.filter, rows.value, map[], schemas.value, names);
        if !IsAggregate(s) then Selected(env, s.items, s.order, s.limit, kept, schemas.value, names)
        else if !kept.Done? then kept.Rethrow()
        else Finished(env, s, env.aggregate(s.items, s.grouping, kept.value, schemas.value, names))
  }

  function Sorted(env: Env, order: seq<SortKey>, results: seq<ResultRow>): seq<ResultRow> {
    if order == [] then results else env.sortResults(order, results)
  }

  /** The schemas a subquery sees: its own, and those of the outer tables it refers to, which take precedence. */
  function Effective(own: Schemas, outer: Schemas, refs: set<string>): Schemas {
    own + (map t | t in outer && t in refs :: outer[t])
  }

  /** A subquery, evaluated for one row of the query around it. */
  ghost function Subquery(env: Env, s: Select, outer: CombinedRow, outerSchemas: Schemas): Outcome<seq<ResultRow>>
    decreases s
  {
    var own := AllSchemas(env, s.from);
    if !own.Done? then own.Rethrow()
    else
      var rows := FromRowsOf(env, s.from, own.value);
      if !rows.Done? then rows.Rethrow()
      else
        var schemas := Effective(own.value, outerSchemas, SelectRefs(s));
        var names := multiset(Names(s.from));
        var kept := Filtered(env, s.filter, rows.value, outer, schemas, names);
        if !kept.Done? then kept.Rethrow()
        else if IsAggregate(s) then Finished(env, s, env.aggregate(s.items, s.grouping, kept.value, schemas, names))
        else Finished(env, s, Project(env, s.items, kept.value, schemas, names))
  }
}
