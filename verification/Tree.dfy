/**
 The index tree (pkg/core/prolly_trees.go) as a function of the tree a root CID denotes.
 Store.dfy holds the step-by-step methods over the content-addressed store and proves
 that each computes the function given here.

 `Rule` says which code is meant. `AsWritten` is the repository's code, line by line.
 `Intended` differs from it in exactly three places, marked "rule" below: which child an
 update descends to when the key equals a separator, what a leaf split keeps, and what a
 leaf borrow or merge moves. Reading is the same code under both rules.
 */
module ProllyTree {
  import opened Keys

  /** Index values are page CIDs; the tree compares them for equality only. */
  type Value = nat

  const ORDER := 8
  const MAX_KEYS := ORDER - 1
  const MIN_KEYS := ORDER / 2 - 1

  datatype Rule = AsWritten | Intended

  datatype Tree =
    | Leaf(keys: seq<Key>, vals: seq<seq<Value>>)
    | Node(keys: seq<Key>, kids: seq<Tree>)

  /** What a lookup ends in: the list of values found, or an index out of range. */
  datatype Lookup = Found(vs: seq<Value>) | Panic

  const EMPTY_TREE := Leaf([], [])

  function InsertAt<T>(s: seq<T>, i: nat, x: T): seq<T>
    requires i <= |s|
  {
    s[..i] + [x] + s[i..]
  }

  function RemoveAt<T>(s: seq<T>, i: nat): seq<T>
    requires i < |s|
  {
    s[..i] + s[i + 1..]
  }

  /** The first position whose key is not below `k`. */
  function Search(keys: seq<Key>, k: Key): (i: nat)
    ensures i <= |keys|
    ensures forall j :: 0 <= j < i ==> keys[j] < k
    ensures i < |keys| ==> keys[i] >= k
  {
    if keys == [] || keys[0] >= k then 0 else 1 + Search(keys[1..], k)
  }

  predicate Holds(keys: seq<Key>, k: Key) {
    var i := Search(keys, k);
    i < |keys| && keys[i] == k
  }

  /** The child a lookup goes to: right of a separator equal to the key. */
  function ReadIndex(keys: seq<Key>, k: Key): (i: nat)
    ensures i <= |keys|
  {
    if Holds(keys, k) then Search(keys, k) + 1 else Search(keys, k)
  }

  /** The child an update goes to (rule). */
  function WriteIndex(rule: Rule, keys: seq<Key>, k: Key): (i: nat)
    ensures i <= |keys|
  {
    if rule.AsWritten? then Search(keys, k) else ReadIndex(keys, k)
  }

  function Get(t: Tree, k: Key): Lookup {
    var i := Search(t.keys, k);
    match t
    case Leaf(keys, vals) =>
      if !Holds(keys, k) then Found([])
      else if i < |vals| then Found(vals[i]) else Panic
    case Node(keys, kids) =>
      var c := ReadIndex(keys, k);
      if c < |kids| then Get(kids[c], k) else Panic
  }

  /** A node has as many value lists as keys, or one more child than keys. */
  predicate LocalShape(t: Tree) {
    match t
    case Leaf(keys, vals) => |vals| == |keys|
    case Node(keys, kids) => |kids| == |keys| + 1
  }

  /** Every node has its local shape, an inner node has a separator and children of one kind. */
  predicate Shaped(t: Tree) {
    LocalShape(t) &&
    (t.Node? ==>
       && |t.keys| >= 1
       && forall i | 0 <= i < |t.kids| :: Shaped(t.kids[i]) && (t.kids[i].Leaf? <==> t.kids[0].Leaf?))
  }

  // ---------------------------------------------------------------- Put

  datatype PutResult = Done(t: Tree) | Split(left: Tree, sep: Key, right: Tree)

  function LeafPut(t: Tree, k: Key, v: Value): (r: Tree)
    requires t.Leaf? && LocalShape(t)
    ensures r.Leaf? && LocalShape(r)
  {
    var i := Search(t.keys, k);
    if Holds(t.keys, k)
    then Leaf(t.keys, t.vals[i := t.vals[i] + [v]])
    else Leaf(InsertAt(t.keys, i, k), InsertAt(t.vals, i, [v]))
  }

  /** An overfull leaf is cut at the middle key (rule: the code as written drops that entry). */
  function LeafSplit(rule: Rule, t: Tree): PutResult
    requires t.Leaf? && LocalShape(t)
  {
    if |t.keys| <= MAX_KEYS then Done(t)
    else
      var mid := |t.keys| / 2;
      var from := if rule.AsWritten? then mid + 1 else mid;
      Split(Leaf(t.keys[..mid], t.vals[..mid]), t.keys[mid], Leaf(t.keys[from..], t.vals[from..]))
  }

  function NodeSplit(t: Tree): PutResult
    requires t.Node? && LocalShape(t)
  {
    if |t.keys| <= MAX_KEYS then Done(t)
    else
      var mid := |t.keys| / 2;
      Split(Node(t.keys[..mid], t.kids[..mid + 1]), t.keys[mid], Node(t.keys[mid + 1..], t.kids[mid + 1..]))
  }

  /** Child `i` replaced by what Put made of it. */
  function Replace(t: Tree, i: nat, r: PutResult): (n: Tree)
    requires t.Node? && LocalShape(t) && i < |t.kids|
    ensures n.Node? && LocalShape(n)
  {
    match r
    case Done(c) => Node(t.keys, t.kids[i := c])
    case Split(l, s, c) => Node(InsertAt(t.keys, i, s), t.kids[..i] + [l, c] + t.kids[i + 1..])
  }

  function RecPut(rule: Rule, t: Tree, k: Key, v: Value): PutResult
    requires Shaped(t)
  {
    if t.Leaf? then LeafSplit(rule, LeafPut(t, k, v))
    else
      var i := WriteIndex(rule, t.keys, k);
      NodeSplit(Replace(t, i, RecPut(rule, t.kids[i], k, v)))
  }

  function Put(rule: Rule, t: Tree, k: Key, v: Value): Tree
    requires Shaped(t)
  {
    match RecPut(rule, t, k, v)
    case Done(r) => r
    case Split(l, s, r) => Node([s], [l, r])
  }

  // ------------------------------------------------------------- Delete

  /** All copies of a value removed from a list. */
  function Without(vs: seq<Value>, v: Value): (r: seq<Value>)
    ensures v !in vs ==> r == vs
  {
    if vs == [] then [] else (if vs[0] == v then [] else [vs[0]]) + Without(vs[1..], v)
  }

  function LeafDelete(t: Tree, k: Key, v: Value): (r: Tree)
    requires t.Leaf? && LocalShape(t)
    ensures r.Leaf? && LocalShape(r)
  {
    var i := Search(t.keys, k);
    if !Holds(t.keys, k) then t
    else
      var rest := Without(t.vals[i], v);
      if rest == [] then Leaf(RemoveAt(t.keys, i), RemoveAt(t.vals, i))
      else Leaf(t.keys, t.vals[i := rest])
  }

  /** Child `i` and its left neighbour, with the separator between them, after a borrow (rule, for leaves). */
  function BorrowLeft(rule: Rule, l: Tree, s: Key, c: Tree): (r: (Tree, Key, Tree))
    requires LocalShape(l) && LocalShape(c) && l.Leaf? == c.Leaf? && |l.keys| >= 1
  {
    var n := |l.keys| - 1;
    if c.Leaf? then
      var moved := if rule.AsWritten? then s else l.keys[n];
      (Leaf(l.keys[..n], l.vals[..n]), l.keys[n], Leaf([moved] + c.keys, [l.vals[n]] + c.vals))
    else
      (Node(l.keys[..n], l.kids[..n + 1]), l.keys[n], Node([s] + c.keys, [l.kids[n + 1]] + c.kids))
  }

  /** Child `i` and its right neighbour after a borrow (rule, for leaves). */
  function BorrowRight(rule: Rule, c: Tree, s: Key, r: Tree): (Tree, Key, Tree)
    requires LocalShape(c) && LocalShape(r) && c.Leaf? == r.Leaf? && |r.keys| >= 1
    requires r.Leaf? && rule.Intended? ==> |r.keys| >= 2
  {
    if c.Leaf? then
      var moved, sep := if rule.AsWritten? then s else r.keys[0], if rule.AsWritten? then r.keys[0] else r.keys[1];
      (Leaf(c.keys + [moved], c.vals + [r.vals[0]]), sep, Leaf(r.keys[1..], r.vals[1..]))
    else
      (Node(c.keys + [s], c.kids + [r.kids[0]]), r.keys[0], Node(r.keys[1..], r.kids[1..]))
  }

  /** Two neighbours made one (rule, for leaves: as written the separator becomes a key without values). */
  function Merge(rule: Rule, l: Tree, s: Key, r: Tree): Tree
    requires l.Leaf? == r.Leaf?
  {
    if l.Leaf? then
      Leaf(l.keys + (if rule.AsWritten? then [s] else []) + r.keys, l.vals + r.vals)
    else
      Node(l.keys + [s] + r.keys, l.kids + r.kids)
  }

  /** Neighbours `i` and `i + 1` replaced by a pair with a new separator. */
  function ReplacePair(t: Tree, i: nat, p: (Tree, Key, Tree)): (n: Tree)
    requires t.Node? && LocalShape(t) && i < |t.keys|
    ensures n.Node? && LocalShape(n)
  {
    Node(t.keys[i := p.1], t.kids[i := p.0][i + 1 := p.2])
  }

  /** Neighbours `i` and `i + 1` replaced by one node, and their separator removed. */
  function ReplaceMerged(t: Tree, i: nat, m: Tree): (n: Tree)
    requires t.Node? && LocalShape(t) && i < |t.keys|
    ensures n.Node? && LocalShape(n)
  {
    Node(RemoveAt(t.keys, i), t.kids[..i] + [m] + t.kids[i + 2..])
  }

  /** The children a repair may touch have their local shape and are of one kind. */
  predicate Repairable(t: Tree) {
    && t.Node? && LocalShape(t) && |t.keys| >= 1
    && forall i | 0 <= i < |t.kids| :: LocalShape(t.kids[i]) && (t.kids[i].Leaf? <==> t.kids[0].Leaf?)
  }

  /** Borrow from the left, else from the right, else merge with the left, else with the right. */
  function HandleUnderflow(rule: Rule, t: Tree, i: nat): (r: Tree)
    requires Repairable(t) && i < |t.kids|
    ensures r.Node? && LocalShape(r)
  {
    if i > 0 && |t.kids[i - 1].keys| > MIN_KEYS then
      ReplacePair(t, i - 1, BorrowLeft(rule, t.kids[i - 1], t.keys[i - 1], t.kids[i]))
    else if i < |t.keys| && |t.kids[i + 1].keys| > MIN_KEYS then
      ReplacePair(t, i, BorrowRight(rule, t.kids[i], t.keys[i], t.kids[i + 1]))
    else if i > 0 then
      ReplaceMerged(t, i - 1, Merge(rule, t.kids[i - 1], t.keys[i - 1], t.kids[i]))
    else
      ReplaceMerged(t, i, Merge(rule, t.kids[i], t.keys[i], t.kids[i + 1]))
  }

  function RecDelete(rule: Rule, t: Tree, k: Key, v: Value): (r: Tree)
    requires Shaped(t)
    ensures r.Leaf? == t.Leaf? && LocalShape(r)
  {
    if t.Leaf? then LeafDelete(t, k, v)
    else
      var i := WriteIndex(rule, t.keys, k);
      var c := RecDelete(rule, t.kids[i], k, v);
      if c == t.kids[i] then t
      else
        var n := Node(t.keys, t.kids[i := c]);
        assert Repairable(n) by {
          assert forall j | 0 <= j < |t.kids| :: Shaped(t.kids[j]) && (t.kids[j].Leaf? <==> t.kids[0].Leaf?);
        }
        if |c.keys| < MIN_KEYS then HandleUnderflow(rule, n, i) else n
  }

  /** An inner root left without separators hands over to its only child. */
  function Delete(rule: Rule, t: Tree, k: Key, v: Value): Tree
    requires Shaped(t)
  {
    var r := RecDelete(rule, t, k, v);
    if r.Node? && |r.keys| == 0 && |r.kids| > 0 then r.kids[0] else r
  }

  /** The leaf an update of `k` works on. */
  function ReachedLeaf(rule: Rule, t: Tree, k: Key): (l: Tree)
    requires Shaped(t)
    ensures l.Leaf? && LocalShape(l)
  {
    if t.Leaf? then t else ReachedLeaf(rule, t.kids[WriteIndex(rule, t.keys, k)], k)
  }

  /** The guard of the branch that repairs a leaf: below the root, the reached leaf is left with fewer than 3 keys. */
  predicate Underflows(rule: Rule, t: Tree, k: Key, v: Value)
    requires Shaped(t)
  {
    t.Node? && |LeafDelete(ReachedLeaf(rule, t, k), k, v).keys| < MIN_KEYS
  }
}
