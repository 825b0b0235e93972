/**
 What a tree holds: for each key, the values found in all of its leaves, left to right.
 Get reads exactly that (as written: except at separators), Put appends to it and Delete
 removes from it.
 */
module ProllyTreeContents {
  import opened Keys
  import opened ProllyTree
  import opened ProllyTreeShape
  import Seqs

  function LeafVals(keys: seq<Key>, vals: seq<seq<Value>>, q: Key): seq<Value>
    requires |vals| == |keys|
  {
    if keys == [] then [] else (if keys[0] == q then vals[0] else []) + LeafVals(keys[1..], vals[1..], q)
  }

  /** Every value stored under `q` in any leaf of a well-shaped tree. */
  function Vals(t: Tree, q: Key): seq<Value>
    decreases t, 0
  {
    match t
    case Leaf(keys, vals) => if |vals| == |keys| then LeafVals(keys, vals, q) else []
    case Node(_, kids) => ForestVals(kids, q)
  }

  function ForestVals(kids: seq<Tree>, q: Key): seq<Value>
    decreases kids, 1
  {
    if kids == [] then [] else Vals(kids[0], q) + ForestVals(kids[1..], q)
  }

  /** A separator of some inner node. */
  ghost predicate IsSep(t: Tree, q: Key) {
    t.Node? && (q in t.keys || exists i :: 0 <= i < |t.kids| && IsSep(t.kids[i], q))
  }

  // ----------------------------------------------- leaves and forests

  lemma {:induction false} LeafValsAppend(k1: seq<Key>, v1: seq<seq<Value>>, k2: seq<Key>, v2: seq<seq<Value>>, q: Key)
    requires |k1| == |v1| && |k2| == |v2|
    ensures LeafVals(k1 + k2, v1 + v2, q) == LeafVals(k1, v1, q) + LeafVals(k2, v2, q)
  {
    if k1 == [] {
      Seqs.Empty(k2);
      Seqs.Empty(v2);
      Seqs.Empty(LeafVals(k2, v2, q));
    } else {
      LeafValsAppend(k1[1..], v1[1..], k2, v2, q);
      Seqs.TailOfJoin(k1, k2);
      Seqs.TailOfJoin(v1, v2);
      var head := if k1[0] == q then v1[0] else [];
      Seqs.Assoc(head, LeafVals(k1[1..], v1[1..], q), LeafVals(k2, v2, q));
    }
  }

  lemma {:induction false} LeafValsAbsent(keys: seq<Key>, vals: seq<seq<Value>>, q: Key)
    requires |vals| == |keys| && q !in keys
    ensures LeafVals(keys, vals, q) == []
  {
    if keys != [] { LeafValsAbsent(keys[1..], vals[1..], q); }
  }

  lemma {:induction false} LeafValsCut(keys: seq<Key>, vals: seq<seq<Value>>, i: nat, q: Key)
    requires |vals| == |keys| && i <= |keys|
    ensures LeafVals(keys, vals, q) == LeafVals(keys[..i], vals[..i], q) + LeafVals(keys[i..], vals[i..], q)
  {
    LeafValsAppend(keys[..i], vals[..i], keys[i..], vals[i..], q);
    Seqs.Cut(keys, i);
    Seqs.Cut(vals, i);
  }

  lemma {:induction false} LeafValsMid(keys: seq<Key>, vals: seq<seq<Value>>, i: nat, q: Key)
    requires |vals| == |keys| && i < |keys|
    ensures LeafVals(keys, vals, q)
         == LeafVals(keys[..i], vals[..i], q) + (if keys[i] == q then vals[i] else [])
            + LeafVals(keys[i + 1..], vals[i + 1..], q)
  {
    LeafValsCut(keys, vals, i, q);
    assert keys[i..][1..] == keys[i + 1..] && vals[i..][1..] == vals[i + 1..];
    Seqs.Assoc(LeafVals(keys[..i], vals[..i], q), if keys[i] == q then vals[i] else [],
               LeafVals(keys[i + 1..], vals[i + 1..], q));
  }

  /** In a sorted leaf only position `i` can hold the key found there. */
  lemma {:induction false} LeafValsAt(keys: seq<Key>, vals: seq<seq<Value>>, i: nat)
    requires |vals| == |keys| && i < |keys| && Sorted(keys)
    ensures LeafVals(keys, vals, keys[i]) == vals[i]
    ensures LeafVals(keys[..i], vals[..i], keys[i]) == [] == LeafVals(keys[i + 1..], vals[i + 1..], keys[i])
  {
    LeafValsMid(keys, vals, i, keys[i]);
    LeafValsAbsent(keys[..i], vals[..i], keys[i]);
    LeafValsAbsent(keys[i + 1..], vals[i + 1..], keys[i]);
  }

  lemma {:induction false} ForestValsAppend(a: seq<Tree>, b: seq<Tree>, q: Key)
    ensures ForestVals(a + b, q) == ForestVals(a, q) + ForestVals(b, q)
  {
    if a == [] {
      Seqs.Empty(b);
      Seqs.Empty(ForestVals(b, q));
    } else {
      ForestValsAppend(a[1..], b, q);
      Seqs.TailOfJoin(a, b);
      Seqs.Assoc(Vals(a[0], q), ForestVals(a[1..], q), ForestVals(b, q));
    }
  }

  lemma {:induction false} ForestValsMid(kids: seq<Tree>, i: nat, j: nat, q: Key)
    requires i <= j <= |kids|
    ensures ForestVals(kids, q) == ForestVals(kids[..i], q) + ForestVals(kids[i..j], q) + ForestVals(kids[j..], q)
  {
    ForestValsAppend(kids[..i], kids[i..j], q);
    ForestValsAppend(kids[..j], kids[j..], q);
    Seqs.Cut(kids, j);
    assert kids[..j] == kids[..i] + kids[i..j];
  }

  lemma {:induction false} ForestValsOne(kids: seq<Tree>, i: nat, q: Key)
    requires i < |kids|
    ensures ForestVals(kids, q) == ForestVals(kids[..i], q) + Vals(kids[i], q) + ForestVals(kids[i + 1..], q)
  {
    ForestValsMid(kids, i, i + 1, q);
    assert kids[i..i + 1] == [kids[i]];
    Singleton(kids[i], q);
  }

  lemma {:induction false} Singleton(t: Tree, q: Key)
    ensures ForestVals([t], q) == Vals(t, q)
  {
    assert [t][1..] == [];
    Seqs.Empty(Vals(t, q));
  }

  lemma {:induction false} ForestValsNone(kids: seq<Tree>, q: Key)
    requires forall i :: 0 <= i < |kids| ==> Vals(kids[i], q) == []
    ensures ForestVals(kids, q) == []
  {
    if kids != [] {
      assert Vals(kids[0], q) == [];
      ForestValsNone(kids[1..], q);
    }
  }

  // ------------------------------------------------------- bounds and Get

  lemma {:induction false} OutsideIsEmpty(rule: Rule, t: Tree, q: Key, h: nat, lo: real, hi: real, least: nat)
    requires WF(rule, t, h, lo, hi, least) && !Within(rule, q, lo, hi)
    ensures Vals(t, q) == []
    decreases t
  {
    match t {
      case Leaf(keys, vals) => LeafValsAbsent(keys, vals, q);
      case Node(keys, kids) =>
        forall i | 0 <= i < |kids| ensures Vals(kids[i], q) == [] {
          OutsideIsEmpty(rule, kids[i], q, h - 1, LowAt(keys, lo, i), HighAt(keys, hi, i), MIN_KEYS);
        }
        ForestValsNone(kids, q);
    }
  }

  /** Only the child whose bounds contain the key can hold it. */
  lemma {:induction false} OthersAreEmpty(
    rule: Rule, keys: seq<Key>, kids: seq<Tree>, i: nat, q: Key, h: nat, lo: real, hi: real)
    requires KidsOk(rule, keys, kids, h, lo, hi) && i <= |keys|
    requires Within(rule, q, LowAt(keys, lo, i), HighAt(keys, hi, i))
    ensures ForestVals(kids[..i], q) == [] == ForestVals(kids[i + 1..], q)
    ensures ForestVals(kids, q) == Vals(kids[i], q)
  {
    forall j | 0 <= j < |kids| && j != i ensures Vals(kids[j], q) == [] {
      OutsideIsEmpty(rule, kids[j], q, h, LowAt(keys, lo, j), HighAt(keys, hi, j), MIN_KEYS);
    }
    ForestValsNone(kids[..i], q);
    ForestValsNone(kids[i + 1..], q);
    ForestValsOne(kids, i, q);
  }

  lemma {:induction false} SepsAreInside(rule: Rule, t: Tree, q: Key, h: nat, lo: real, hi: real, least: nat)
    requires WF(rule, t, h, lo, hi, least) && IsSep(t, q)
    ensures lo < q < hi
    decreases t
  {
    if q !in t.keys {
      var i :| 0 <= i < |t.kids| && IsSep(t.kids[i], q);
      SepsAreInside(rule, t.kids[i], q, h - 1, LowAt(t.keys, lo, i), HighAt(t.keys, hi, i), MIN_KEYS);
    }
  }

  /** As written, a lookup of a separator runs down the left edge of the subtree to its right. */
  lemma {:induction false} GetAtLowerBound(t: Tree, q: Key, h: nat, hi: real, least: nat)
    requires WF(AsWritten, t, h, q, hi, least)
    ensures Get(t, q) == Found([])
    decreases t
  {
    if t.Node? {
      assert ReadIndex(t.keys, q) == 0;
      assert WF(AsWritten, t.kids[0], h - 1, LowAt(t.keys, q, 0), HighAt(t.keys, hi, 0), MIN_KEYS);
      GetAtLowerBound(t.kids[0], q, h - 1, HighAt(t.keys, hi, 0), MIN_KEYS);
    }
  }

  /** Get on a well-formed tree: all values of the key; as written, none at a separator. */
  lemma {:induction false} GetReadsVals(rule: Rule, t: Tree, q: Key, h: nat, lo: real, hi: real, least: nat)
    requires WF(rule, t, h, lo, hi, least) && Within(rule, q, lo, hi)
    ensures Get(t, q) == Found(if rule.AsWritten? && IsSep(t, q) then [] else Vals(t, q))
    decreases t
  {
    match t {
      case Leaf(keys, vals) =>
        if Holds(keys, q) { LeafValsAt(keys, vals, Search(keys, q)); }
        else { NotHeld(keys, q); LeafValsAbsent(keys, vals, q); }
      case Node(keys, kids) =>
        var i := ReadIndex(keys, q);
        if rule.AsWritten? && Holds(keys, q) {
          assert WF(rule, kids[i], h - 1, LowAt(keys, lo, i), HighAt(keys, hi, i), MIN_KEYS);
          GetAtLowerBound(kids[i], q, h - 1, HighAt(keys, hi, i), MIN_KEYS);
        } else {
          ReadIndexWithin(rule, t, q, h, lo, hi, least);
          GetReadsVals(rule, kids[i], q, h - 1, LowAt(keys, lo, i), HighAt(keys, hi, i), MIN_KEYS);
        }
    }
  }

  /** Off the separators, or under the intended rule, a lookup goes where the key's values and separators are. */
  lemma {:induction false} ReadIndexWithin(rule: Rule, t: Tree, q: Key, h: nat, lo: real, hi: real, least: nat)
    requires t.Node? && WF(rule, t, h, lo, hi, least) && Within(rule, q, lo, hi)
    requires rule.AsWritten? ==> !Holds(t.keys, q)
    ensures var i := ReadIndex(t.keys, q);
      && WF(rule, t.kids[i], h - 1, LowAt(t.keys, lo, i), HighAt(t.keys, hi, i), MIN_KEYS)
      && Within(rule, q, LowAt(t.keys, lo, i), HighAt(t.keys, hi, i))
      && Vals(t, q) == Vals(t.kids[i], q)
      && (rule.AsWritten? ==> (IsSep(t, q) <==> IsSep(t.kids[i], q)))
  {
    var i := ReadIndex(t.keys, q);
    WriteIndexWithin(rule, t.keys, q, lo, hi);
    assert KidsOk(rule, t.keys, t.kids, h - 1, lo, hi);
    OthersAreEmpty(rule, t.keys, t.kids, i, q, h - 1, lo, hi);
    if rule.AsWritten? {
      NotHeld(t.keys, q);
      SepsOfOne(rule, t, i, q, h, lo, hi, least);
    }
  }

  lemma {:induction false} NotHeld(keys: seq<Key>, q: Key)
    requires Sorted(keys) && !Holds(keys, q)
    ensures q !in keys
  {
  }

  /** A key that is no separator here can only be one below the child it belongs to. */
  lemma {:induction false} SepsOfOne(rule: Rule, t: Tree, i: nat, q: Key, h: nat, lo: real, hi: real, least: nat)
    requires t.Node? && WF(rule, t, h, lo, hi, least) && q !in t.keys && i <= |t.keys|
    requires Within(rule, q, LowAt(t.keys, lo, i), HighAt(t.keys, hi, i))
    ensures IsSep(t, q) <==> IsSep(t.kids[i], q)
  {
    forall j | 0 <= j < |t.kids| && IsSep(t.kids[j], q) ensures j == i {
      SepsAreInside(rule, t.kids[j], q, h - 1, LowAt(t.keys, lo, j), HighAt(t.keys, hi, j), MIN_KEYS);
    }
  }

  // ---------------------------------------------------------------- Put

  function ResultVals(r: PutResult, q: Key): seq<Value> {
    match r
    case Done(t) => Vals(t, q)
    case Split(l, _, c) => Vals(l, q) + Vals(c, q)
  }

  ghost predicate ResultSep(r: PutResult, q: Key) {
    match r
    case Done(t) => IsSep(t, q)
    case Split(l, s, c) => IsSep(l, q) || q == s || IsSep(c, q)
  }

  /** Whether the reached leaf has to be split, and the key that moves up. */
  predicate Overflows(rule: Rule, t: Tree, k: Key, v: Value)
    requires Shaped(t)
  {
    |LeafPut(ReachedLeaf(rule, t, k), k, v).keys| > MAX_KEYS
  }

  function PromotedKey(rule: Rule, t: Tree, k: Key, v: Value): Key
    requires Shaped(t) && Overflows(rule, t, k, v)
  {
    var keys := LeafPut(ReachedLeaf(rule, t, k), k, v).keys;
    keys[|keys| / 2]
  }

  /** The values of `q` a recursive Put leaves in a subtree: as written, those of the promoted key are lost. */
  function AfterPut(rule: Rule, t: Tree, k: Key, v: Value, q: Key): seq<Value>
    requires Shaped(t)
  {
    if rule.AsWritten? && Overflows(rule, t, k, v) && q == PromotedKey(rule, t, k, v) then []
    else Vals(t, q) + if q == k then [v] else []
  }

  lemma {:induction false} LeafPutHeldVals(t: Tree, k: Key, v: Value, q: Key)
    requires t.Leaf? && LocalShape(t) && Sorted(t.keys) && Holds(t.keys, k)
    ensures Vals(LeafPut(t, k, v), q) == Vals(t, q) + if q == k then [v] else []
  {
    var i, r := Search(t.keys, k), LeafPut(t, k, v);
    assert r.keys == t.keys && r.vals[..i] == t.vals[..i] && r.vals[i + 1..] == t.vals[i + 1..];
    LeafValsMid(r.keys, r.vals, i, q);
    LeafValsMid(t.keys, t.vals, i, q);
    if q == k {
      LeafValsAt(t.keys, t.vals, i);
    } else {
      Seqs.Empty(Vals(t, q));
    }
  }

  lemma {:induction false} LeafPutNewVals(t: Tree, k: Key, v: Value, q: Key)
    requires t.Leaf? && LocalShape(t) && Sorted(t.keys) && !Holds(t.keys, k)
    ensures Vals(LeafPut(t, k, v), q) == Vals(t, q) + if q == k then [v] else []
  {
    var i, r := Search(t.keys, k), LeafPut(t, k, v);
    assert r.keys[..i] == t.keys[..i] && r.vals[..i] == t.vals[..i];
    assert r.keys[i + 1..] == t.keys[i..] && r.vals[i + 1..] == t.vals[i..];
    LeafValsMid(r.keys, r.vals, i, q);
    LeafValsCut(t.keys, t.vals, i, q);
    if q == k {
      NotHeld(t.keys, k);
      LeafValsAbsent(t.keys, t.vals, k);
      LeafValsAbsent(t.keys[..i], t.vals[..i], k);
      LeafValsAbsent(t.keys[i..], t.vals[i..], k);
    } else {
      Seqs.Empty(LeafVals(t.keys[..i], t.vals[..i], q));
      Seqs.Empty(Vals(t, q));
    }
  }

  lemma {:induction false} LeafPutVals(t: Tree, k: Key, v: Value, q: Key)
    requires t.Leaf? && LocalShape(t) && Sorted(t.keys)
    ensures Vals(LeafPut(t, k, v), q) == Vals(t, q) + if q == k then [v] else []
  {
    if Holds(t.keys, k) { LeafPutHeldVals(t, k, v, q); } else { LeafPutNewVals(t, k, v, q); }
  }

  /** The halves of a leaf without its middle entry. */
  lemma {:induction false} LeafHalves(keys: seq<Key>, vals: seq<seq<Value>>, mid: nat, q: Key)
    requires |keys| == |vals| && Sorted(keys) && mid < |keys|
    ensures LeafVals(keys[..mid], vals[..mid], q) + LeafVals(keys[mid + 1..], vals[mid + 1..], q)
         == if q == keys[mid] then [] else LeafVals(keys, vals, q)
  {
    LeafValsMid(keys, vals, mid, q);
    if q == keys[mid] {
      LeafValsAt(keys, vals, mid);
    } else {
      Seqs.Empty(LeafVals(keys[..mid], vals[..mid], q));
    }
  }

  lemma {:induction false} LeafSplitVals(rule: Rule, t: Tree, q: Key)
    requires t.Leaf? && LocalShape(t) && Sorted(t.keys)
    ensures ResultVals(LeafSplit(rule, t), q)
         == if rule.AsWritten? && |t.keys| > MAX_KEYS && q == t.keys[|t.keys| / 2] then [] else Vals(t, q)
  {
    var mid := |t.keys| / 2;
    if |t.keys| > MAX_KEYS && rule.Intended? {
      LeafValsCut(t.keys, t.vals, mid, q);
    } else if |t.keys| > MAX_KEYS {
      LeafHalves(t.keys, t.vals, mid, q);
    }
  }

  lemma {:induction false} NodeSplitVals(t: Tree, q: Key)
    requires t.Node? && LocalShape(t)
    ensures ResultVals(NodeSplit(t), q) == Vals(t, q)
  {
    if |t.keys| > MAX_KEYS {
      var mid := |t.keys| / 2;
      ForestValsAppend(t.kids[..mid + 1], t.kids[mid + 1..], q);
      assert t.kids == t.kids[..mid + 1] + t.kids[mid + 1..];
    }
  }

  lemma {:induction false} NodeSplitSeps(t: Tree, q: Key)
    requires t.Node? && LocalShape(t)
    ensures ResultSep(NodeSplit(t), q) <==> IsSep(t, q)
  {
    if |t.keys| > MAX_KEYS {
      var mid := |t.keys| / 2;
      assert q in t.keys <==> q in t.keys[..mid] || q == t.keys[mid] || q in t.keys[mid + 1..] by {
        assert t.keys == t.keys[..mid] + [t.keys[mid]] + t.keys[mid + 1..];
      }
      KidSeps(t.kids, mid + 1, q);
    }
  }

  /** The children with a separator `q` are those before and those after a cut. */
  lemma {:induction false} KidSeps(kids: seq<Tree>, i: nat, q: Key)
    requires i <= |kids|
    ensures (exists j :: 0 <= j < |kids| && IsSep(kids[j], q))
       <==> (exists j :: 0 <= j < |kids[..i]| && IsSep(kids[..i][j], q))
            || (exists j :: 0 <= j < |kids[i..]| && IsSep(kids[i..][j], q))
  {
    if j :| 0 <= j < |kids| && IsSep(kids[j], q) {
      if j < i { assert IsSep(kids[..i][j], q); } else { assert IsSep(kids[i..][j - i], q); }
    }
  }

  lemma {:induction false} ReplaceVals(t: Tree, i: nat, r: PutResult, q: Key)
    requires t.Node? && LocalShape(t) && i < |t.kids|
    ensures Vals(Replace(t, i, r), q) == ForestVals(t.kids[..i], q) + ResultVals(r, q) + ForestVals(t.kids[i + 1..], q)
  {
    var n := Replace(t, i, r);
    match r {
      case Done(c) =>
        ForestValsOne(n.kids, i, q);
        assert n.kids[..i] == t.kids[..i] && n.kids[i + 1..] == t.kids[i + 1..];
      case Split(l, s, c) =>
        ForestValsMid(n.kids, i, i + 2, q);
        assert n.kids[..i] == t.kids[..i] && n.kids[i..i + 2] == [l] + [c] && n.kids[i + 2..] == t.kids[i + 1..];
        ForestValsAppend([l], [c], q);
        Singleton(l, q);
        Singleton(c, q);
    }
  }

  lemma {:induction false} PromotedIsInside(
    rule: Rule, t: Tree, k: Key, v: Value, h: nat, lo: real, hi: real, least: nat)
    requires WF(rule, t, h, lo, hi, least) && Within(rule, k, lo, hi) && Shaped(t) && Overflows(rule, t, k, v)
    ensures lo < PromotedKey(rule, t, k, v) < hi
    decreases t
  {
    if t.Leaf? {
      LeafPutOk(rule, t, k, v, lo, hi);
      var keys := LeafPut(t, k, v).keys;
      assert |keys| == 8 && keys[0] < keys[4] < keys[7];
    } else {
      var i := WriteIndex(rule, t.keys, k);
      WriteIndexWithin(rule, t.keys, k, lo, hi);
      PromotedIsInside(rule, t.kids[i], k, v, h - 1, LowAt(t.keys, lo, i), HighAt(t.keys, hi, i), MIN_KEYS);
    }
  }

  /** A node's values are those before, in and after child `i`; only the child's when the key lies in its bounds. */
  lemma {:induction false} RestVals(rule: Rule, t: Tree, i: nat, q: Key, h: nat, lo: real, hi: real, least: nat)
    requires t.Node? && WF(rule, t, h, lo, hi, least) && i <= |t.keys|
    ensures Vals(t, q) == ForestVals(t.kids[..i], q) + Vals(t.kids[i], q) + ForestVals(t.kids[i + 1..], q)
    ensures Within(rule, q, LowAt(t.keys, lo, i), HighAt(t.keys, hi, i))
        ==> ForestVals(t.kids[..i], q) == [] == ForestVals(t.kids[i + 1..], q)
  {
    ForestValsOne(t.kids, i, q);
    if Within(rule, q, LowAt(t.keys, lo, i), HighAt(t.keys, hi, i)) {
      assert KidsOk(rule, t.keys, t.kids, h - 1, lo, hi);
      OthersAreEmpty(rule, t.keys, t.kids, i, q, h - 1, lo, hi);
    }
  }

  lemma {:induction false} PutStepVals(
    rule: Rule, t: Tree, k: Key, v: Value, i: nat, r: PutResult, q: Key, h: nat, lo: real, hi: real, least: nat)
    requires t.Node? && WF(rule, t, h, lo, hi, least) && Shaped(t) && i <= |t.keys|
    requires Within(rule, k, LowAt(t.keys, lo, i), HighAt(t.keys, hi, i)) && i == WriteIndex(rule, t.keys, k)
    requires ResultVals(r, q) == AfterPut(rule, t.kids[i], k, v, q)
    requires Overflows(rule, t.kids[i], k, v) ==>
      Within(rule, PromotedKey(rule, t.kids[i], k, v), LowAt(t.keys, lo, i), HighAt(t.keys, hi, i))
    ensures ResultVals(NodeSplit(Replace(t, i, r)), q) == AfterPut(rule, t, k, v, q)
  {
    NodeSplitVals(Replace(t, i, r), q);
    ReplaceVals(t, i, r, q);
    RestVals(rule, t, i, q, h, lo, hi, least);
  }

  lemma {:induction false} RecPutVals(
    rule: Rule, t: Tree, k: Key, v: Value, q: Key, h: nat, lo: real, hi: real, least: nat)
    requires WF(rule, t, h, lo, hi, least) && Within(rule, k, lo, hi) && Shaped(t)
    ensures ResultVals(RecPut(rule, t, k, v), q) == AfterPut(rule, t, k, v, q)
    decreases t
  {
    if t.Leaf? {
      LeafPutVals(t, k, v, q);
      LeafPutOk(rule, t, k, v, lo, hi);
      LeafSplitVals(rule, LeafPut(t, k, v), q);
    } else {
      var i := WriteIndex(rule, t.keys, k);
      WriteIndexWithin(rule, t.keys, k, lo, hi);
      var lo', hi' := LowAt(t.keys, lo, i), HighAt(t.keys, hi, i);
      assert WF(rule, t.kids[i], h - 1, lo', hi', MIN_KEYS);
      RecPutVals(rule, t.kids[i], k, v, q, h - 1, lo', hi', MIN_KEYS);
      if Overflows(rule, t.kids[i], k, v) { PromotedIsInside(rule, t.kids[i], k, v, h - 1, lo', hi', MIN_KEYS); }
      PutStepVals(rule, t, k, v, i, RecPut(rule, t.kids[i], k, v), q, h, lo, hi, least);
    }
  }

  lemma {:induction false} RecPutSeps(rule: Rule, t: Tree, k: Key, v: Value, q: Key)
    requires Shaped(t)
    ensures ResultSep(RecPut(rule, t, k, v), q)
       <==> IsSep(t, q) || (Overflows(rule, t, k, v) && q == PromotedKey(rule, t, k, v))
    decreases t
  {
    if t.Node? {
      var i := WriteIndex(rule, t.keys, k);
      RecPutSeps(rule, t.kids[i], k, v, q);
      var r := RecPut(rule, t.kids[i], k, v);
      ReplaceSeps(t, i, r, q);
      NodeSplitSeps(Replace(t, i, r), q);
      OneKidSeps(t.kids, i, q);
    }
  }

  /** A separator below some child: below child `i` or below another one. */
  lemma {:induction false} OneKidSeps(kids: seq<Tree>, i: nat, q: Key)
    requires i < |kids|
    ensures (exists j :: 0 <= j < |kids| && IsSep(kids[j], q))
       <==> IsSep(kids[i], q) || (exists j :: 0 <= j < |kids| && j != i && IsSep(kids[j], q))
  {
  }

  lemma {:induction false} ReplaceSeps(t: Tree, i: nat, r: PutResult, q: Key)
    requires t.Node? && LocalShape(t) && i < |t.kids|
    ensures IsSep(Replace(t, i, r), q)
       <==> q in t.keys || ResultSep(r, q) || (exists j :: 0 <= j < |t.kids| && j != i && IsSep(t.kids[j], q))
  {
    var n := Replace(t, i, r);
    match r {
      case Done(c) =>
        assert n.kids[i] == c;
        if j :| 0 <= j < |t.kids| && j != i && IsSep(t.kids[j], q) { assert n.kids[j] == t.kids[j]; }
      case Split(l, s, c) =>
        assert q in n.keys <==> q in t.keys || q == s by { assert t.keys == t.keys[..i] + t.keys[i..]; }
        assert n.kids[i] == l && n.kids[i + 1] == c;
        if j :| 0 <= j < |t.kids| && j != i && IsSep(t.kids[j], q) {
          assert n.kids[if j < i then j else j + 1] == t.kids[j];
        }
        if j :| 0 <= j < |n.kids| && IsSep(n.kids[j], q) && j != i && j != i + 1 {
          var j' := if j < i then j else j - 1;
          assert t.kids[j'] == n.kids[j] && j' != i;
        }
    }
  }

  /** Put on a tree at the top: its values and its separators. */
  lemma {:induction false} PutVals(rule: Rule, t: Tree, k: Key, v: Value, h: nat, q: Key)
    requires RootOk(rule, t, h) && Shaped(t)
    ensures Vals(Put(rule, t, k, v), q) == AfterPut(rule, t, k, v, q)
    ensures IsSep(Put(rule, t, k, v), q)
       <==> IsSep(t, q) || (Overflows(rule, t, k, v) && q == PromotedKey(rule, t, k, v))
  {
    RecPutVals(rule, t, k, v, q, h, LOW, HIGH, if t.Leaf? then 0 else 1);
    RecPutSeps(rule, t, k, v, q);
    match RecPut(rule, t, k, v) {
      case Done(r) =>
      case Split(l, s, r) => NewRoot(l, s, r, q);
    }
  }

  lemma {:induction false} NewRoot(l: Tree, s: Key, r: Tree, q: Key)
    ensures Vals(Node([s], [l, r]), q) == Vals(l, q) + Vals(r, q)
    ensures IsSep(Node([s], [l, r]), q) <==> IsSep(l, q) || q == s || IsSep(r, q)
  {
    var n := Node([s], [l, r]);
    assert n.kids[0] == l && n.kids[1] == r;
    assert n.kids[1..] == [r];
    Singleton(r, q);
  }
}
