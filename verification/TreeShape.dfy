/**
 Well-formed trees: one depth, 3 to 7 keys below the root, sorted keys, separators that
 bound their subtrees. Put keeps them so under both rules, Delete under the intended one.
 */
module ProllyTreeShape {
  import opened Keys
  import opened ProllyTree
  import Seqs

  /** Open ends of the key space. */
  const LOW := -1.0
  const HIGH := 2.0

  /** The keys a subtree between two separators may hold: as written, updates go left of an equal separator. */
  predicate Within(rule: Rule, k: Key, lo: real, hi: real) {
    if rule.AsWritten? then lo < k <= hi else lo <= k < hi
  }

  predicate Sorted(keys: seq<Key>) {
    forall i, j :: 0 <= i < j < |keys| ==> keys[i] < keys[j]
  }

  function LowAt(keys: seq<Key>, lo: real, i: nat): real
    requires i <= |keys|
  {
    if i == 0 then lo else keys[i - 1]
  }

  function HighAt(keys: seq<Key>, hi: real, i: nat): real
    requires i <= |keys|
  {
    if i == |keys| then hi else keys[i]
  }

  predicate LeafOk(rule: Rule, keys: seq<Key>, vals: seq<seq<Value>>, lo: real, hi: real) {
    && |vals| == |keys|
    && Sorted(keys)
    && (forall i :: 0 <= i < |keys| ==> Within(rule, keys[i], lo, hi))
    && (forall i :: 0 <= i < |vals| ==> vals[i] != [])
  }

  predicate SepsOk(keys: seq<Key>, lo: real, hi: real) {
    Sorted(keys) && forall i :: 0 <= i < |keys| ==> lo < keys[i] < hi
  }

  /** Height `h`, all keys between the bounds, `least` to 7 keys here and 3 to 7 below. */
  predicate WF(rule: Rule, t: Tree, h: nat, lo: real, hi: real, least: nat) {
    && least <= |t.keys| <= MAX_KEYS
    && (match t
        case Leaf(keys, vals) => h == 0 && LeafOk(rule, keys, vals, lo, hi)
        case Node(keys, kids) =>
          && h > 0 && SepsOk(keys, lo, hi) && |kids| == |keys| + 1
          && forall i | 0 <= i < |kids| :: WF(rule, kids[i], h - 1, LowAt(keys, lo, i), HighAt(keys, hi, i), MIN_KEYS))
  }

  /** The children of a node, whatever their number. */
  predicate KidsOk(rule: Rule, keys: seq<Key>, kids: seq<Tree>, h: nat, lo: real, hi: real) {
    && SepsOk(keys, lo, hi) && |kids| == |keys| + 1
    && forall i | 0 <= i < |kids| :: WF(rule, kids[i], h, LowAt(keys, lo, i), HighAt(keys, hi, i), MIN_KEYS)
  }

  /** A tree in its place at the top: a leaf of any size, or an inner node with a separator. */
  predicate RootOk(rule: Rule, t: Tree, h: nat) {
    WF(rule, t, h, LOW, HIGH, if t.Leaf? then 0 else 1)
  }

  lemma {:induction false} WFIsShaped(rule: Rule, t: Tree, h: nat, lo: real, hi: real, least: nat)
    requires WF(rule, t, h, lo, hi, least)
    requires t.Node? ==> least >= 1
    ensures Shaped(t)
    decreases t
  {
    if t.Node? {
      forall i | 0 <= i < |t.kids| ensures Shaped(t.kids[i]) && (t.kids[i].Leaf? <==> t.kids[0].Leaf?) {
        WFIsShaped(rule, t.kids[i], h - 1, LowAt(t.keys, lo, i), HighAt(t.keys, hi, i), MIN_KEYS);
        assert WF(rule, t.kids[0], h - 1, LowAt(t.keys, lo, 0), HighAt(t.keys, hi, 0), MIN_KEYS);
      }
    }
  }

  // ------------------------------------------------- pieces of a node

  lemma {:induction false} SearchUnique(keys: seq<Key>, k: Key, i: nat)
    requires Sorted(keys) && i <= |keys|
    requires forall j :: 0 <= j < i ==> keys[j] < k
    requires i < |keys| ==> keys[i] >= k
    ensures Search(keys, k) == i
  {
  }

  /** An update goes to the child whose bounds contain the key. */
  lemma {:induction false} WriteIndexWithin(rule: Rule, keys: seq<Key>, k: Key, lo: real, hi: real)
    requires SepsOk(keys, lo, hi) && Within(rule, k, lo, hi)
    ensures var i := WriteIndex(rule, keys, k); Within(rule, k, LowAt(keys, lo, i), HighAt(keys, hi, i))
    ensures forall i :: 0 <= i <= |keys| && Within(rule, k, LowAt(keys, lo, i), HighAt(keys, hi, i))
                 ==> i == WriteIndex(rule, keys, k)
  {
  }

  lemma {:induction false} LeafPiece(
    rule: Rule, keys: seq<Key>, vals: seq<seq<Value>>, a: nat, b: nat, lo: real, hi: real, lo': real, hi': real)
    requires LeafOk(rule, keys, vals, lo, hi) && a <= b <= |keys|
    requires forall i :: a <= i < b ==> Within(rule, keys[i], lo', hi')
    ensures LeafOk(rule, keys[a..b], vals[a..b], lo', hi')
  {
  }

  /** A run of children with the separators between them is well formed between its neighbours. */
  lemma {:induction false} KidsPiece(
    rule: Rule, keys: seq<Key>, kids: seq<Tree>, h: nat, lo: real, hi: real, a: nat, b: nat)
    requires KidsOk(rule, keys, kids, h, lo, hi) && a <= b <= |keys|
    ensures KidsOk(rule, keys[a..b], kids[a..b + 1], h, LowAt(keys, lo, a), HighAt(keys, hi, b))
  {
    var ks, cs := keys[a..b], kids[a..b + 1];
    var lo', hi' := LowAt(keys, lo, a), HighAt(keys, hi, b);
    forall i | 0 <= i < |cs| ensures WF(rule, cs[i], h, LowAt(ks, lo', i), HighAt(ks, hi', i), MIN_KEYS) {
      assert cs[i] == kids[a + i];
      assert LowAt(ks, lo', i) == LowAt(keys, lo, a + i) && HighAt(ks, hi', i) == HighAt(keys, hi, a + i);
    }
  }

  /** Two runs joined by a separator. */
  lemma {:induction false} KidsJoin(
    rule: Rule, k1: seq<Key>, c1: seq<Tree>, s: Key, k2: seq<Key>, c2: seq<Tree>, h: nat, lo: real, hi: real)
    requires KidsOk(rule, k1, c1, h, lo, s) && KidsOk(rule, k2, c2, h, s, hi) && lo < s < hi
    ensures KidsOk(rule, k1 + [s] + k2, c1 + c2, h, lo, hi)
  {
    var ks, cs := k1 + [s] + k2, c1 + c2;
    forall i | 0 <= i < |cs| ensures WF(rule, cs[i], h, LowAt(ks, lo, i), HighAt(ks, hi, i), MIN_KEYS) {
      if i < |c1| {
        assert cs[i] == c1[i] && LowAt(ks, lo, i) == LowAt(k1, lo, i) && HighAt(ks, hi, i) == HighAt(k1, s, i);
      } else {
        var j := i - |c1|;
        assert cs[i] == c2[j] && LowAt(ks, lo, i) == LowAt(k2, s, j) && HighAt(ks, hi, i) == HighAt(k2, hi, j);
      }
    }
  }

  lemma {:induction false} KidsOne(rule: Rule, c: Tree, h: nat, lo: real, hi: real)
    requires WF(rule, c, h, lo, hi, MIN_KEYS)
    ensures KidsOk(rule, [], [c], h, lo, hi)
  {
  }

  /** A run followed by the children after position `j`. */
  lemma {:induction false} KidsThenRest(
    rule: Rule, keys: seq<Key>, kids: seq<Tree>, j: nat, ks: seq<Key>, cs: seq<Tree>, h: nat, lo: real, mid: real,
    hi: real)
    requires KidsOk(rule, keys, kids, h, lo, hi) && j <= |keys|
    requires KidsOk(rule, ks, cs, h, mid, HighAt(keys, hi, j)) && mid < hi
    requires j < |keys| ==> mid < keys[j]
    ensures KidsOk(rule, ks + keys[j..], cs + kids[j + 1..], h, mid, hi)
  {
    if j < |keys| {
      KidsPiece(rule, keys, kids, h, lo, hi, j + 1, |keys|);
      Seqs.Whole(keys, j + 1);
      Seqs.Whole(kids, j + 1);
      KidsJoin(rule, ks, cs, keys[j], keys[j + 1..], kids[j + 1..], h, mid, hi);
      Seqs.Assoc(ks, [keys[j]], keys[j + 1..]);
      Seqs.Uncons(keys, j);
    } else {
      Seqs.Empty(ks);
      Seqs.Empty(cs);
      assert keys[j..] == [] && kids[j + 1..] == [];
    }
  }

  /** A run put in the place of the children `i` to `j`. */
  lemma {:induction false} KidsReplace(
    rule: Rule, keys: seq<Key>, kids: seq<Tree>, i: nat, j: nat, ks: seq<Key>, cs: seq<Tree>, h: nat, lo: real,
    hi: real)
    requires KidsOk(rule, keys, kids, h, lo, hi) && i <= j <= |keys| && lo < hi
    requires KidsOk(rule, ks, cs, h, LowAt(keys, lo, i), HighAt(keys, hi, j))
    ensures KidsOk(rule, keys[..i] + ks + keys[j..], kids[..i] + cs + kids[j + 1..], h, lo, hi)
  {
    KidsThenRest(rule, keys, kids, j, ks, cs, h, lo, LowAt(keys, lo, i), hi);
    var ks', cs' := ks + keys[j..], cs + kids[j + 1..];
    if i > 0 {
      KidsPiece(rule, keys, kids, h, lo, hi, 0, i - 1);
      Seqs.Whole(keys, i - 1);
      Seqs.Whole(kids, i);
      KidsJoin(rule, keys[..i - 1], kids[..i], keys[i - 1], ks', cs', h, lo, hi);
      Seqs.Unsnoc(keys, i - 1);
    } else {
      assert keys[..i] == [] && kids[..i] == [];
      Seqs.Empty(ks');
      Seqs.Empty(cs');
    }
    Seqs.Assoc(keys[..i], ks, keys[j..]);
    Seqs.Assoc(kids[..i], cs, kids[j + 1..]);
  }

  // ---------------------------------------------------------------- Put

  /** What a recursive Put returns for a well-formed subtree. */
  predicate PutOk(rule: Rule, r: PutResult, h: nat, lo: real, hi: real, least: nat) {
    match r
    case Done(t) => WF(rule, t, h, lo, hi, least)
    case Split(l, s, c) => lo < s < hi && WF(rule, l, h, lo, s, MIN_KEYS) && WF(rule, c, h, s, hi, MIN_KEYS)
  }

  lemma {:induction false} LeafPutOk(rule: Rule, t: Tree, k: Key, v: Value, lo: real, hi: real)
    requires t.Leaf? && LeafOk(rule, t.keys, t.vals, lo, hi) && Within(rule, k, lo, hi)
    ensures var r := LeafPut(t, k, v);
            LeafOk(rule, r.keys, r.vals, lo, hi) && |r.keys| == |t.keys| + if Holds(t.keys, k) then 0 else 1
  {
  }

  lemma {:induction false} LeafSplitOk(rule: Rule, t: Tree, lo: real, hi: real, least: nat)
    requires t.Leaf? && LeafOk(rule, t.keys, t.vals, lo, hi) && least <= |t.keys| <= MAX_KEYS + 1
    ensures PutOk(rule, LeafSplit(rule, t), 0, lo, hi, least)
  {
    if |t.keys| > MAX_KEYS {
      var from := if rule.AsWritten? then 5 else 4;
      LeafPiece(rule, t.keys, t.vals, 0, 4, lo, hi, lo, t.keys[4]);
      assert t.keys[0..4] == t.keys[..4] && t.vals[0..4] == t.vals[..4];
      LeafPiece(rule, t.keys, t.vals, from, 8, lo, hi, t.keys[4], hi);
      assert t.keys[from..8] == t.keys[from..] && t.vals[from..8] == t.vals[from..];
      assert t.keys[0] < t.keys[4] < t.keys[7];
    }
  }

  lemma {:induction false} NodeSplitOk(
    rule: Rule, keys: seq<Key>, kids: seq<Tree>, h: nat, lo: real, hi: real, least: nat)
    requires KidsOk(rule, keys, kids, h, lo, hi) && least <= |keys| <= MAX_KEYS + 1
    ensures PutOk(rule, NodeSplit(Node(keys, kids)), h + 1, lo, hi, least)
  {
    if |keys| > MAX_KEYS {
      KidsPiece(rule, keys, kids, h, lo, hi, 0, 4);
      assert keys[0..4] == keys[..4] && kids[0..5] == kids[..5];
      KidsPiece(rule, keys, kids, h, lo, hi, 5, 8);
      assert keys[5..8] == keys[5..] && kids[5..9] == kids[5..];
    }
  }

  lemma {:induction false} ReplaceOk(rule: Rule, t: Tree, i: nat, r: PutResult, h: nat, lo: real, hi: real)
    requires t.Node? && KidsOk(rule, t.keys, t.kids, h, lo, hi) && i <= |t.keys| && lo < hi
    requires PutOk(rule, r, h, LowAt(t.keys, lo, i), HighAt(t.keys, hi, i), MIN_KEYS)
    ensures var n := Replace(t, i, r); KidsOk(rule, n.keys, n.kids, h, lo, hi)
    ensures |Replace(t, i, r).keys| == |t.keys| + if r.Split? then 1 else 0
  {
    var n := Replace(t, i, r);
    match r {
      case Done(c) =>
        KidsOne(rule, c, h, LowAt(t.keys, lo, i), HighAt(t.keys, hi, i));
        KidsReplace(rule, t.keys, t.kids, i, i, [], [c], h, lo, hi);
        Seqs.Empty(t.keys[..i]);
        Seqs.Cut(t.keys, i);
        Seqs.Update(t.kids, i, c);
      case Split(l, s, c) =>
        KidsOne(rule, l, h, LowAt(t.keys, lo, i), s);
        KidsOne(rule, c, h, s, HighAt(t.keys, hi, i));
        KidsJoin(rule, [], [l], s, [], [c], h, LowAt(t.keys, lo, i), HighAt(t.keys, hi, i));
        assert [] + [s] + [] == [s] && [l] + [c] == [l, c];
        KidsReplace(rule, t.keys, t.kids, i, i, [s], [l, c], h, lo, hi);
    }
  }

  lemma {:induction false} RecPutOk(rule: Rule, t: Tree, k: Key, v: Value, h: nat, lo: real, hi: real, least: nat)
    requires WF(rule, t, h, lo, hi, least) && Within(rule, k, lo, hi) && Shaped(t)
    ensures PutOk(rule, RecPut(rule, t, k, v), h, lo, hi, least)
    decreases t
  {
    if t.Leaf? {
      LeafPutOk(rule, t, k, v, lo, hi);
      LeafSplitOk(rule, LeafPut(t, k, v), lo, hi, least);
    } else {
      var i := WriteIndex(rule, t.keys, k);
      WriteIndexWithin(rule, t.keys, k, lo, hi);
      RecPutOk(rule, t.kids[i], k, v, h - 1, LowAt(t.keys, lo, i), HighAt(t.keys, hi, i), MIN_KEYS);
      var r := RecPut(rule, t.kids[i], k, v);
      ReplaceOk(rule, t, i, r, h - 1, lo, hi);
      var n := Replace(t, i, r);
      NodeSplitOk(rule, n.keys, n.kids, h - 1, lo, hi, least);
    }
  }

  /** Under both rules Put keeps balance, occupancy, order and bounds; it grows a level exactly at a root split. */
  lemma {:induction false} PutKeepsShape(rule: Rule, t: Tree, k: Key, v: Value, h: nat)
    requires RootOk(rule, t, h) && Shaped(t)
    ensures RootOk(rule, Put(rule, t, k, v), if RecPut(rule, t, k, v).Split? then h + 1 else h)
  {
    RecPutOk(rule, t, k, v, h, LOW, HIGH, if t.Leaf? then 0 else 1);
    match RecPut(rule, t, k, v) {
      case Done(r) =>
      case Split(l, s, r) =>
        KidsOne(rule, l, h, LOW, s);
        KidsOne(rule, r, h, s, HIGH);
        KidsJoin(rule, [], [l], s, [], [r], h, LOW, HIGH);
        assert [] + [s] + [] == [s] && [l] + [r] == [l, r];
    }
  }

  // ------------------------------------------------------------- Delete

  lemma {:induction false} LeafDeleteOk(rule: Rule, t: Tree, k: Key, v: Value, lo: real, hi: real)
    requires t.Leaf? && LeafOk(rule, t.keys, t.vals, lo, hi)
    ensures var r := LeafDelete(t, k, v);
            LeafOk(rule, r.keys, r.vals, lo, hi) && |t.keys| - 1 <= |r.keys| <= |t.keys|
  {
  }

  /** A pair of neighbours with the separator between them. */
  predicate PairOk(rule: Rule, p: (Tree, Key, Tree), h: nat, lo: real, hi: real) {
    lo < p.1 < hi && WF(rule, p.0, h, lo, p.1, MIN_KEYS) && WF(rule, p.2, h, p.1, hi, MIN_KEYS)
  }

  lemma {:induction false} BorrowLeafOk(l: Tree, s: Key, c: Tree, lo: real, hi: real)
    requires l.Leaf? && c.Leaf? && lo < s < hi
    requires WF(Intended, l, 0, lo, s, MIN_KEYS) && WF(Intended, c, 0, s, hi, MIN_KEYS - 1)
    ensures |l.keys| > MIN_KEYS && |c.keys| < MIN_KEYS ==> PairOk(Intended, BorrowLeft(Intended, l, s, c), 0, lo, hi)
  {
    if |l.keys| > MIN_KEYS {
      var n := |l.keys| - 1;
      LeafPiece(Intended, l.keys, l.vals, 0, n, lo, s, lo, l.keys[n]);
      assert l.keys[0..n] == l.keys[..n] && l.vals[0..n] == l.vals[..n];
      assert l.keys[0] < l.keys[n];
    }
  }

  lemma {:induction false} BorrowRightLeafOk(c: Tree, s: Key, r: Tree, lo: real, hi: real)
    requires c.Leaf? && r.Leaf? && lo < s < hi
    requires WF(Intended, c, 0, lo, s, MIN_KEYS - 1) && WF(Intended, r, 0, s, hi, MIN_KEYS)
    ensures |r.keys| > MIN_KEYS && |c.keys| < MIN_KEYS ==> PairOk(Intended, BorrowRight(Intended, c, s, r), 0, lo, hi)
  {
    if |r.keys| > MIN_KEYS {
      LeafPiece(Intended, r.keys, r.vals, 1, |r.keys|, s, hi, r.keys[1], hi);
      assert r.keys[1..|r.keys|] == r.keys[1..] && r.vals[1..|r.keys|] == r.vals[1..];
      assert r.keys[0] < r.keys[1];
    }
  }

  lemma {:induction false} MergeLeafOk(l: Tree, s: Key, r: Tree, lo: real, hi: real)
    requires l.Leaf? && r.Leaf? && lo < s < hi
    requires WF(Intended, l, 0, lo, s, 0) && WF(Intended, r, 0, s, hi, 0)
    requires MIN_KEYS <= |l.keys| + |r.keys| <= MAX_KEYS
    ensures WF(Intended, Merge(Intended, l, s, r), 0, lo, hi, MIN_KEYS)
  {
    var m := Merge(Intended, l, s, r);
    assert l.keys + [] + r.keys == l.keys + r.keys;
    forall i, j | 0 <= i < j < |m.keys| ensures m.keys[i] < m.keys[j] {
      if i < |l.keys| <= j { assert m.keys[i] < s <= m.keys[j]; }
    }
  }

  lemma {:induction false} BorrowNodeOk(rule: Rule, l: Tree, s: Key, c: Tree, h: nat, lo: real, hi: real)
    requires l.Node? && c.Node? && lo < s < hi
    requires WF(rule, l, h, lo, s, MIN_KEYS) && WF(rule, c, h, s, hi, MIN_KEYS - 1)
    ensures |l.keys| > MIN_KEYS && |c.keys| < MIN_KEYS ==> PairOk(rule, BorrowLeft(rule, l, s, c), h, lo, hi)
  {
    if |l.keys| > MIN_KEYS {
      var n := |l.keys| - 1;
      KidsPiece(rule, l.keys, l.kids, h - 1, lo, s, 0, n);
      Seqs.Whole(l.keys, n);
      Seqs.Whole(l.kids, n + 1);
      assert WF(rule, l.kids[n + 1], h - 1, LowAt(l.keys, lo, n + 1), HighAt(l.keys, s, n + 1), MIN_KEYS);
      KidsOne(rule, l.kids[n + 1], h - 1, l.keys[n], s);
      KidsJoin(rule, [], [l.kids[n + 1]], s, c.keys, c.kids, h - 1, l.keys[n], hi);
      Seqs.Empty([s]);
    }
  }

  lemma {:induction false} BorrowRightNodeOk(rule: Rule, c: Tree, s: Key, r: Tree, h: nat, lo: real, hi: real)
    requires c.Node? && r.Node? && lo < s < hi
    requires WF(rule, c, h, lo, s, MIN_KEYS - 1) && WF(rule, r, h, s, hi, MIN_KEYS)
    ensures |r.keys| > MIN_KEYS && |c.keys| < MIN_KEYS ==> PairOk(rule, BorrowRight(rule, c, s, r), h, lo, hi)
  {
    if |r.keys| > MIN_KEYS {
      var n := |r.keys|;
      KidsPiece(rule, r.keys, r.kids, h - 1, s, hi, 1, n);
      Seqs.Whole(r.keys, 1);
      Seqs.Whole(r.kids, 1);
      assert WF(rule, r.kids[0], h - 1, LowAt(r.keys, s, 0), HighAt(r.keys, hi, 0), MIN_KEYS);
      KidsOne(rule, r.kids[0], h - 1, s, r.keys[0]);
      KidsJoin(rule, c.keys, c.kids, s, [], [r.kids[0]], h - 1, lo, r.keys[0]);
      Seqs.Empty(c.keys + [s]);
    }
  }

  lemma {:induction false} MergeNodeOk(rule: Rule, l: Tree, s: Key, r: Tree, h: nat, lo: real, hi: real)
    requires l.Node? && r.Node? && lo < s < hi
    requires WF(rule, l, h, lo, s, 0) && WF(rule, r, h, s, hi, 0)
    requires MIN_KEYS <= |l.keys| + |r.keys| + 1 <= MAX_KEYS
    ensures WF(rule, Merge(rule, l, s, r), h, lo, hi, MIN_KEYS)
  {
    KidsJoin(rule, l.keys, l.kids, s, r.keys, r.kids, h - 1, lo, hi);
  }

  lemma {:induction false} PairReplaced(
    rule: Rule, keys: seq<Key>, kids: seq<Tree>, i: nat, p: (Tree, Key, Tree), h: nat, lo: real, hi: real)
    requires KidsOk(rule, keys, kids, h, lo, hi) && i < |keys| && lo < hi
    requires PairOk(rule, p, h, LowAt(keys, lo, i), HighAt(keys, hi, i + 1))
    ensures KidsOk(rule, keys[i := p.1], kids[i := p.0][i + 1 := p.2], h, lo, hi)
  {
    var lo', hi' := LowAt(keys, lo, i), HighAt(keys, hi, i + 1);
    KidsOne(rule, p.0, h, lo', p.1);
    KidsOne(rule, p.2, h, p.1, hi');
    KidsJoin(rule, [], [p.0], p.1, [], [p.2], h, lo', hi');
    Seqs.Empty([p.1]);
    assert [p.0] + [p.2] == [p.0, p.2];
    KidsReplace(rule, keys, kids, i, i + 1, [p.1], [p.0, p.2], h, lo, hi);
    Seqs.Update(keys, i, p.1);
    assert kids[i := p.0][i + 1 := p.2] == kids[..i] + [p.0, p.2] + kids[i + 2..];
  }

  lemma {:induction false} MergedReplaced(
    rule: Rule, keys: seq<Key>, kids: seq<Tree>, i: nat, m: Tree, h: nat, lo: real, hi: real)
    requires KidsOk(rule, keys, kids, h, lo, hi) && i < |keys| && lo < hi
    requires WF(rule, m, h, LowAt(keys, lo, i), HighAt(keys, hi, i + 1), MIN_KEYS)
    ensures KidsOk(rule, RemoveAt(keys, i), kids[..i] + [m] + kids[i + 2..], h, lo, hi)
  {
    KidsOne(rule, m, h, LowAt(keys, lo, i), HighAt(keys, hi, i + 1));
    KidsReplace(rule, keys, kids, i, i + 1, [], [m], h, lo, hi);
    Seqs.Empty(keys[..i]);
  }

  /** Neighbours of one kind, one of them short by a key, and what the repair makes of them. */
  lemma {:induction false} BorrowOk(rule: Rule, left: bool, a: Tree, s: Key, b: Tree, h: nat, lo: real, hi: real)
    requires rule.Intended? || h > 0
    requires lo < s < hi && |(if left then a else b).keys| > MIN_KEYS && |(if left then b else a).keys| < MIN_KEYS
    requires WF(rule, a, h, lo, s, if left then MIN_KEYS else MIN_KEYS - 1)
    requires WF(rule, b, h, s, hi, if left then MIN_KEYS - 1 else MIN_KEYS)
    ensures PairOk(rule, if left then BorrowLeft(rule, a, s, b) else BorrowRight(rule, a, s, b), h, lo, hi)
  {
    if a.Leaf? {
      if left { BorrowLeafOk(a, s, b, lo, hi); } else { BorrowRightLeafOk(a, s, b, lo, hi); }
    } else {
      if left { BorrowNodeOk(rule, a, s, b, h, lo, hi); } else { BorrowRightNodeOk(rule, a, s, b, h, lo, hi); }
    }
  }

  lemma {:induction false} MergeOk(rule: Rule, a: Tree, s: Key, b: Tree, h: nat, lo: real, hi: real)
    requires rule.Intended? || h > 0
    requires lo < s < hi && |a.keys| + |b.keys| == 2 * MIN_KEYS - 1
    requires WF(rule, a, h, lo, s, MIN_KEYS - 1) && WF(rule, b, h, s, hi, MIN_KEYS - 1)
    ensures WF(rule, Merge(rule, a, s, b), h, lo, hi, MIN_KEYS)
  {
    if a.Leaf? { MergeLeafOk(a, s, b, lo, hi); } else { MergeNodeOk(rule, a, s, b, h, lo, hi); }
  }

  /** The three facts every repair starts from: well-formed children, one of them short. */
  predicate ShortOk(rule: Rule, keys: seq<Key>, kids: seq<Tree>, i: nat, c: Tree, h: nat, lo: real, hi: real) {
    && KidsOk(rule, keys, kids, h, lo, hi) && lo < hi && i <= |keys|
    && WF(rule, c, h, LowAt(keys, lo, i), HighAt(keys, hi, i), MIN_KEYS - 1) && |c.keys| < MIN_KEYS
    && (rule.Intended? || h > 0)
  }

  lemma {:induction false} RepairByLeft(
    rule: Rule, keys: seq<Key>, kids: seq<Tree>, i: nat, c: Tree, h: nat, lo: real, hi: real)
    requires ShortOk(rule, keys, kids, i, c, h, lo, hi) && i > 0 && |kids[i - 1].keys| > MIN_KEYS
    requires Repairable(Node(keys, kids[i := c]))
    ensures var r := ReplacePair(Node(keys, kids[i := c]), i - 1, BorrowLeft(rule, kids[i - 1], keys[i - 1], c));
            KidsOk(rule, r.keys, r.kids, h, lo, hi) && |r.keys| == |keys|
  {
    assert WF(rule, kids[i - 1], h, LowAt(keys, lo, i - 1), HighAt(keys, hi, i - 1), MIN_KEYS);
    BorrowOk(rule, true, kids[i - 1], keys[i - 1], c, h, LowAt(keys, lo, i - 1), HighAt(keys, hi, i));
    var p := BorrowLeft(rule, kids[i - 1], keys[i - 1], c);
    PairReplaced(rule, keys, kids, i - 1, p, h, lo, hi);
    assert kids[i := c][i - 1 := p.0][i := p.2] == kids[i - 1 := p.0][i := p.2];
  }

  lemma {:induction false} RepairByRight(
    rule: Rule, keys: seq<Key>, kids: seq<Tree>, i: nat, c: Tree, h: nat, lo: real, hi: real)
    requires ShortOk(rule, keys, kids, i, c, h, lo, hi) && i < |keys| && |kids[i + 1].keys| > MIN_KEYS
    requires Repairable(Node(keys, kids[i := c]))
    ensures var r := ReplacePair(Node(keys, kids[i := c]), i, BorrowRight(rule, c, keys[i], kids[i + 1]));
            KidsOk(rule, r.keys, r.kids, h, lo, hi) && |r.keys| == |keys|
  {
    assert WF(rule, kids[i + 1], h, LowAt(keys, lo, i + 1), HighAt(keys, hi, i + 1), MIN_KEYS);
    BorrowOk(rule, false, c, keys[i], kids[i + 1], h, LowAt(keys, lo, i), HighAt(keys, hi, i + 1));
    var p := BorrowRight(rule, c, keys[i], kids[i + 1]);
    PairReplaced(rule, keys, kids, i, p, h, lo, hi);
    assert kids[i := c][i := p.0][i + 1 := p.2] == kids[i := p.0][i + 1 := p.2];
  }

  lemma {:induction false} RepairByMergeLeft(
    rule: Rule, keys: seq<Key>, kids: seq<Tree>, i: nat, c: Tree, h: nat, lo: real, hi: real)
    requires ShortOk(rule, keys, kids, i, c, h, lo, hi) && i > 0 && |kids[i - 1].keys| <= MIN_KEYS
    requires Repairable(Node(keys, kids[i := c]))
    ensures var r := ReplaceMerged(Node(keys, kids[i := c]), i - 1, Merge(rule, kids[i - 1], keys[i - 1], c));
            KidsOk(rule, r.keys, r.kids, h, lo, hi) && |r.keys| == |keys| - 1
  {
    assert WF(rule, kids[i - 1], h, LowAt(keys, lo, i - 1), HighAt(keys, hi, i - 1), MIN_KEYS);
    MergeOk(rule, kids[i - 1], keys[i - 1], c, h, LowAt(keys, lo, i - 1), HighAt(keys, hi, i));
    MergedReplaced(rule, keys, kids, i - 1, Merge(rule, kids[i - 1], keys[i - 1], c), h, lo, hi);
    assert kids[i := c][..i - 1] == kids[..i - 1] && kids[i := c][i + 1..] == kids[i + 1..];
  }

  lemma {:induction false} RepairByMergeRight(
    rule: Rule, keys: seq<Key>, kids: seq<Tree>, c: Tree, h: nat, lo: real, hi: real)
    requires ShortOk(rule, keys, kids, 0, c, h, lo, hi) && |keys| > 0 && |kids[1].keys| <= MIN_KEYS
    requires Repairable(Node(keys, kids[0 := c]))
    ensures var r := ReplaceMerged(Node(keys, kids[0 := c]), 0, Merge(rule, c, keys[0], kids[1]));
            KidsOk(rule, r.keys, r.kids, h, lo, hi) && |r.keys| == |keys| - 1
  {
    assert WF(rule, kids[1], h, LowAt(keys, lo, 1), HighAt(keys, hi, 1), MIN_KEYS);
    MergeOk(rule, c, keys[0], kids[1], h, LowAt(keys, lo, 0), HighAt(keys, hi, 1));
    MergedReplaced(rule, keys, kids, 0, Merge(rule, c, keys[0], kids[1]), h, lo, hi);
    assert kids[0 := c][..0] == kids[..0] && kids[0 := c][2..] == kids[2..];
  }

  /** Child `i`, one key short, is repaired from its neighbours; the parent loses at most one key. */
  lemma {:induction false} HandleUnderflowOk(
    rule: Rule, keys: seq<Key>, kids: seq<Tree>, i: nat, c: Tree, h: nat, lo: real, hi: real)
    requires ShortOk(rule, keys, kids, i, c, h, lo, hi) && |keys| > 0
    requires Repairable(Node(keys, kids[i := c]))
    ensures var r := HandleUnderflow(rule, Node(keys, kids[i := c]), i);
            KidsOk(rule, r.keys, r.kids, h, lo, hi) && |keys| - 1 <= |r.keys| <= |keys|
  {
    var t := Node(keys, kids[i := c]);
    var r := HandleUnderflow(rule, t, i);
    assert t.kids[i] == c && (i > 0 ==> t.kids[i - 1] == kids[i - 1]) && (i < |keys| ==> t.kids[i + 1] == kids[i + 1]);
    if i > 0 && |kids[i - 1].keys| > MIN_KEYS {
      assert r == ReplacePair(t, i - 1, BorrowLeft(rule, kids[i - 1], keys[i - 1], c));
      RepairByLeft(rule, keys, kids, i, c, h, lo, hi);
    } else if i < |keys| && |kids[i + 1].keys| > MIN_KEYS {
      assert r == ReplacePair(t, i, BorrowRight(rule, c, keys[i], kids[i + 1]));
      RepairByRight(rule, keys, kids, i, c, h, lo, hi);
    } else if i > 0 {
      assert r == ReplaceMerged(t, i - 1, Merge(rule, kids[i - 1], keys[i - 1], c));
      RepairByMergeLeft(rule, keys, kids, i, c, h, lo, hi);
    } else {
      assert r == ReplaceMerged(t, 0, Merge(rule, c, keys[0], kids[1]));
      RepairByMergeRight(rule, keys, kids, c, h, lo, hi);
    }
  }

  /** One level of Delete, from the child up. */
  lemma {:induction false} DeleteStepOk(rule: Rule, t: Tree, i: nat, c: Tree, h: nat, lo: real, hi: real, least: nat)
    requires t.Node? && WF(rule, t, h, lo, hi, least) && Shaped(t) && lo < hi && i <= |t.keys|
    requires WF(rule, c, h - 1, LowAt(t.keys, lo, i), HighAt(t.keys, hi, i), MIN_KEYS - 1)
    requires LocalShape(c) && c.Leaf? == t.kids[i].Leaf?
    requires rule.AsWritten? ==> |c.keys| >= MIN_KEYS
    requires Repairable(Node(t.keys, t.kids[i := c]))
    ensures var n := Node(t.keys, t.kids[i := c]);
            var r := if |c.keys| < MIN_KEYS then HandleUnderflow(rule, n, i) else n;
            WF(rule, r, h, lo, hi, if least == 0 then 0 else least - 1) && (rule.AsWritten? ==> |r.keys| == |t.keys|)
  {
    assert KidsOk(rule, t.keys, t.kids, h - 1, lo, hi);
    if |c.keys| < MIN_KEYS {
      HandleUnderflowOk(rule, t.keys, t.kids, i, c, h - 1, lo, hi);
    } else {
      ReplaceOk(rule, t, i, Done(c), h - 1, lo, hi);
    }
  }

  lemma {:induction false} RecDeleteOk(rule: Rule, t: Tree, k: Key, v: Value, h: nat, lo: real, hi: real, least: nat)
    requires WF(rule, t, h, lo, hi, least) && Within(rule, k, lo, hi) && Shaped(t)
    requires rule.AsWritten? ==> !Underflows(rule, t, k, v)
    ensures WF(rule, RecDelete(rule, t, k, v), h, lo, hi, if least == 0 then 0 else least - 1)
    ensures rule.AsWritten? && t.Node? ==> |RecDelete(rule, t, k, v).keys| == |t.keys|
    decreases t
  {
    if t.Leaf? {
      LeafDeleteOk(rule, t, k, v, lo, hi);
    } else {
      var i := WriteIndex(rule, t.keys, k);
      WriteIndexWithin(rule, t.keys, k, lo, hi);
      assert WF(rule, t.kids[i], h - 1, LowAt(t.keys, lo, i), HighAt(t.keys, hi, i), MIN_KEYS);
      RecDeleteOk(rule, t.kids[i], k, v, h - 1, LowAt(t.keys, lo, i), HighAt(t.keys, hi, i), MIN_KEYS);
      var c := RecDelete(rule, t.kids[i], k, v);
      KidRepairable(rule, t, i, c);
      DeleteStepOk(rule, t, i, c, h, lo, hi, least);
    }
  }

  lemma {:induction false} KidRepairable(rule: Rule, t: Tree, i: nat, c: Tree)
    requires Shaped(t) && t.Node? && i < |t.kids| && LocalShape(c) && c.Leaf? == t.kids[i].Leaf?
    ensures Repairable(Node(t.keys, t.kids[i := c]))
  {
    var n := Node(t.keys, t.kids[i := c]);
    forall j | 0 <= j < |n.kids| ensures LocalShape(n.kids[j]) && (n.kids[j].Leaf? <==> n.kids[0].Leaf?) {
      assert Shaped(t.kids[j]) && (t.kids[j].Leaf? <==> t.kids[0].Leaf?);
      assert t.kids[i].Leaf? <==> t.kids[0].Leaf?;
    }
  }

  lemma {:induction false} Relax(rule: Rule, t: Tree, h: nat, lo: real, hi: real, least: nat, less: nat)
    requires WF(rule, t, h, lo, hi, least) && less <= |t.keys|
    ensures WF(rule, t, h, lo, hi, less)
  {
  }

  lemma {:induction false} OnlyChildIsRoot(rule: Rule, r: Tree, h: nat)
    requires WF(rule, r, h, LOW, HIGH, 0) && r.Node? && |r.keys| == 0
    ensures h > 0 && |r.kids| == 1 && RootOk(rule, r.kids[0], h - 1)
  {
    var c := r.kids[0];
    assert WF(rule, c, h - 1, LowAt(r.keys, LOW, 0), HighAt(r.keys, HIGH, 0), MIN_KEYS);
    Relax(rule, c, h - 1, LOW, HIGH, MIN_KEYS, if c.Leaf? then 0 else 1);
  }

  /** Delete keeps the tree well formed, and loses a level exactly when the root's last two children merge. */
  lemma {:induction false} DeleteKeepsShape(rule: Rule, t: Tree, k: Key, v: Value, h: nat)
    requires RootOk(rule, t, h) && Shaped(t)
    requires rule.AsWritten? ==> !Underflows(rule, t, k, v)
    ensures var r := RecDelete(rule, t, k, v);
            var collapsed := r.Node? && |r.keys| == 0;
            (collapsed ==> h > 0) && RootOk(rule, Delete(rule, t, k, v), if collapsed then h - 1 else h)
  {
    RecDeleteOk(rule, t, k, v, h, LOW, HIGH, if t.Leaf? then 0 else 1);
    var r := RecDelete(rule, t, k, v);
    if r.Node? && |r.keys| == 0 {
      OnlyChildIsRoot(rule, r, h);
    } else {
      Relax(rule, r, h, LOW, HIGH, 0, if r.Leaf? then 0 else 1);
    }
  }
}
