/**
 When reading the index tree as written panics: exactly which lookups run off the end of a
 leaf's value lists after one Delete from a tree in order.
 */
module ProllyTreePanics {
  import opened Keys
  import opened ProllyTree
  import opened ProllyTreeShape
  import opened ProllyTreeContents
  import opened ProllyTreeDelete
  import opened ProllyTreeRuns
  import Seqs

  // --------------------------------------------------- where lookups go

  /** Where a lookup goes among sorted separators. */
  predicate GoesTo(keys: seq<Key>, q: Key, j: nat) {
    j <= |keys| && (j > 0 ==> keys[j - 1] <= q) && (j < |keys| ==> q < keys[j])
  }

  lemma {:induction false} ReadIndexIs(keys: seq<Key>, q: Key, j: nat)
    requires Sorted(keys) && GoesTo(keys, q, j)
    ensures ReadIndex(keys, q) == j
  {
    if j > 0 && keys[j - 1] == q { SearchUnique(keys, q, j - 1); } else { SearchUnique(keys, q, j); }
  }

  lemma {:induction false} ReadIndexGoes(keys: seq<Key>, q: Key)
    requires Sorted(keys)
    ensures GoesTo(keys, q, ReadIndex(keys, q))
  {
  }

  /** A lookup in a tree in shape never panics. */
  lemma {:induction false} ShapedFinds(t: Tree, q: Key)
    requires Shaped(t)
    ensures Get(t, q).Found?
    decreases t
  {
    if t.Node? {
      var j := ReadIndex(t.keys, q);
      assert Shaped(t.kids[j]);
      ShapedFinds(t.kids[j], q);
    }
  }

  // --------------------------------- repairs of inner nodes keep all lookups

  /** Two sorted lists of separators with one between them. */
  predicate Between(a: seq<Key>, s: Key, b: seq<Key>) {
    Sorted(a) && Sorted(b) && (forall i :: 0 <= i < |a| ==> a[i] < s) && (forall i :: 0 <= i < |b| ==> s < b[i])
  }

  lemma {:induction false} BetweenJoins(a: seq<Key>, s: Key, b: seq<Key>)
    requires Between(a, s, b)
    ensures Sorted(a + [s]) && Sorted([s] + b) && Sorted(a + [s] + b)
  {
  }

  /** An inner node with sorted separators, and two neighbouring inner children whose separators fit between. */
  ghost predicate InnerPair(t: Tree, m: nat) {
    && t.Node? && Sorted(t.keys) && |t.kids| == |t.keys| + 1 && m < |t.keys|
    && t.kids[m].Node? && t.kids[m + 1].Node?
    && |t.kids[m].kids| == |t.kids[m].keys| + 1 && |t.kids[m + 1].kids| == |t.kids[m + 1].keys| + 1
    && Between(t.kids[m].keys, t.keys[m], t.kids[m + 1].keys)
    && (m > 0 && t.kids[m].keys != [] ==> t.keys[m - 1] < t.kids[m].keys[0])
    && (m + 1 < |t.keys| && t.kids[m + 1].keys != [] ==> t.kids[m + 1].keys[|t.kids[m + 1].keys| - 1] < t.keys[m + 1])
  }

  /** Two neighbours with another separator between them: lookups that went elsewhere still do. */
  lemma {:induction false} PairElsewhere(t: Tree, m: nat, p: (Tree, Key, Tree), q: Key)
    requires t.Node? && LocalShape(t) && Sorted(t.keys) && m < |t.keys| && Sorted(t.keys[m := p.1])
    requires var j := ReadIndex(t.keys, q); j < m || j > m + 1
    ensures Get(ReplacePair(t, m, p), q) == Get(t, q)
  {
    var j := ReadIndex(t.keys, q);
    ReadIndexGoes(t.keys, q);
    assert j > m + 1 ==> t.keys[m + 1] <= q && t.keys[m := p.1][m] < t.keys[m := p.1][m + 1];
    ReadIndexIs(t.keys[m := p.1], q, j);
  }

  /** Lookups that went to one of the two go to the one the new separator says. */
  lemma {:induction false} PairHere(t: Tree, m: nat, p: (Tree, Key, Tree), q: Key)
    requires t.Node? && LocalShape(t) && Sorted(t.keys) && m < |t.keys| && Sorted(t.keys[m := p.1])
    requires var j := ReadIndex(t.keys, q); j == m || j == m + 1
    ensures Get(ReplacePair(t, m, p), q) == Get(if q < p.1 then p.0 else p.2, q)
  {
    ReadIndexGoes(t.keys, q);
    var keys := t.keys[m := p.1];
    assert m > 0 ==> t.keys[m - 1] <= q by { if m > 0 { assert t.keys[m - 1] < t.keys[m]; } }
    assert m + 1 < |t.keys| ==> q < t.keys[m + 1] by { if m + 1 < |t.keys| { assert t.keys[m] < t.keys[m + 1]; } }
    ReadIndexIs(keys, q, if q < p.1 then m else m + 1);
  }

  /** A node without its last child, for a lookup that did not go there. */
  lemma {:induction false} WithoutLast(t: Tree, q: Key)
    requires t.Node? && LocalShape(t) && Sorted(t.keys) && |t.keys| >= 1
    ensures var n := |t.keys| - 1;
      Get(t, q) == Get(if q < t.keys[n] then Node(t.keys[..n], t.kids[..n + 1]) else t.kids[n + 1], q)
  {
    var n := |t.keys| - 1;
    ReadIndexGoes(t.keys, q);
    if q < t.keys[n] { ReadIndexIs(t.keys[..n], q, ReadIndex(t.keys, q)); } else { ReadIndexIs(t.keys, q, n + 1); }
  }

  lemma {:induction false} GoesBehind(s: Key, keys: seq<Key>, q: Key, j: nat)
    requires GoesTo(keys, q, j) && s <= q
    ensures GoesTo([s] + keys, q, j + 1)
  {
    assert ([s] + keys)[j] == if j == 0 then s else keys[j - 1];
  }

  lemma {:induction false} ReadsAt(t: Tree, q: Key, j: nat)
    requires t.Node? && Sorted(t.keys) && GoesTo(t.keys, q, j) && j < |t.kids|
    ensures Get(t, q) == Get(t.kids[j], q)
  {
    ReadIndexIs(t.keys, q, j);
  }

  /** A node with one more child in front. */
  lemma {:induction false} WithFirst(s: Key, kid: Tree, t: Tree, q: Key)
    requires t.Node? && LocalShape(t) && Sorted([s] + t.keys) && Sorted(t.keys)
    ensures Get(Node([s] + t.keys, [kid] + t.kids), q) == Get(if q < s then kid else t, q)
  {
    var r, j := Node([s] + t.keys, [kid] + t.kids), ReadIndex(t.keys, q);
    ReadIndexGoes(t.keys, q);
    if q < s {
      ReadsAt(r, q, 0);
    } else {
      GoesBehind(s, t.keys, q, j);
      ReadsAt(r, q, j + 1);
      ReadsAt(t, q, j);
    }
  }

  lemma {:induction false} BorrowedLeft(l: Tree, s: Key, c: Tree, q: Key)
    requires l.Node? && c.Node? && LocalShape(l) && LocalShape(c) && |l.keys| >= 1 && Between(l.keys, s, c.keys)
    ensures var p := BorrowLeft(AsWritten, l, s, c);
      p.1 < s && Get(if q < p.1 then p.0 else p.2, q) == Get(if q < s then l else c, q)
  {
    BetweenJoins(l.keys, s, c.keys);
    WithoutLast(l, q);
    WithFirst(s, l.kids[|l.keys|], c, q);
  }

  lemma {:induction false} BorrowedRight(c: Tree, s: Key, r: Tree, q: Key)
    requires c.Node? && r.Node? && LocalShape(c) && LocalShape(r) && |r.keys| >= 1 && Between(c.keys, s, r.keys)
    ensures var p := BorrowRight(AsWritten, c, s, r);
      s < p.1 && Get(if q < p.1 then p.0 else p.2, q) == Get(if q < s then c else r, q)
  {
    BetweenJoins(c.keys, s, r.keys);
    ReadIndexGoes(c.keys, q);
    ReadIndexGoes(r.keys, q);
    if q < s {
      ReadIndexIs(c.keys + [s], q, ReadIndex(c.keys, q));
    } else if q < r.keys[0] {
      ReadIndexIs(c.keys + [s], q, |c.keys| + 1);
      ReadIndexIs(r.keys, q, 0);
    } else {
      ReadIndexIs(r.keys[1..], q, ReadIndex(r.keys, q) - 1);
    }
  }

  lemma {:induction false} Merged(c: Tree, s: Key, r: Tree, q: Key)
    requires c.Node? && r.Node? && LocalShape(c) && LocalShape(r) && Between(c.keys, s, r.keys)
    ensures Get(Merge(AsWritten, c, s, r), q) == Get(if q < s then c else r, q)
  {
    BetweenJoins(c.keys, s, r.keys);
    ReadIndexGoes(c.keys, q);
    ReadIndexGoes(r.keys, q);
    var keys := c.keys + [s] + r.keys;
    ReadIndexIs(keys, q, if q < s then ReadIndex(c.keys, q) else |c.keys| + 1 + ReadIndex(r.keys, q));
  }

  /** A lookup in one of two neighbours goes left below their separator and right from it on. */
  lemma {:induction false} PairReads(t: Tree, m: nat, q: Key)
    requires t.Node? && LocalShape(t) && Sorted(t.keys) && m < |t.keys|
    requires var j := ReadIndex(t.keys, q); j == m || j == m + 1
    ensures Get(t, q) == Get(if q < t.keys[m] then t.kids[m] else t.kids[m + 1], q)
  {
    ReadIndexGoes(t.keys, q);
  }

  lemma {:induction false} ReplacedPairReads(t: Tree, m: nat, p: (Tree, Key, Tree), q: Key)
    requires InnerPair(t, m) && Sorted(t.keys[m := p.1])
    requires Get(if q < p.1 then p.0 else p.2, q) == Get(if q < t.keys[m] then t.kids[m] else t.kids[m + 1], q)
    ensures Get(ReplacePair(t, m, p), q) == Get(t, q)
  {
    var j := ReadIndex(t.keys, q);
    if j == m || j == m + 1 {
      PairHere(t, m, p, q);
      PairReads(t, m, q);
    } else {
      PairElsewhere(t, m, p, q);
    }
  }

  lemma {:induction false} SortedWithout(keys: seq<Key>, m: nat)
    requires Sorted(keys) && m < |keys|
    ensures Sorted(RemoveAt(keys, m))
  {
  }

  lemma {:induction false} MergedKids(kids: seq<Tree>, m: nat, merged: Tree, j: nat)
    requires m + 1 < |kids| && j < |kids|
    ensures var ks := kids[..m] + [merged] + kids[m + 2..];
      |ks| == |kids| - 1 && ks[if j <= m then j else j - 1] == if j == m || j == m + 1 then merged else kids[j]
  {
  }

  /** Two neighbours made one: a lookup that went to one of them goes to it, and others go where they went. */
  lemma {:induction false} MergedGoes(t: Tree, m: nat, merged: Tree, q: Key)
    requires t.Node? && LocalShape(t) && Sorted(t.keys) && m < |t.keys|
    ensures var j := ReadIndex(t.keys, q);
      Get(ReplaceMerged(t, m, merged), q) == if j == m || j == m + 1 then Get(merged, q) else Get(t, q)
  {
    var j := ReadIndex(t.keys, q);
    ReadIndexGoes(t.keys, q);
    SortedWithout(t.keys, m);
    GoesWithout(t.keys, m, q, j);
    ReadIndexIs(RemoveAt(t.keys, m), q, if j <= m then j else j - 1);
    MergedKids(t.kids, m, merged, j);
  }

  lemma {:induction false} GoesWithout(keys: seq<Key>, m: nat, q: Key, j: nat)
    requires Sorted(keys) && m < |keys| && GoesTo(keys, q, j)
    ensures GoesTo(RemoveAt(keys, m), q, if j <= m then j else j - 1)
  {
  }

  lemma {:induction false} ReplacedMergedReads(t: Tree, m: nat, q: Key)
    requires InnerPair(t, m)
    ensures Get(ReplaceMerged(t, m, Merge(AsWritten, t.kids[m], t.keys[m], t.kids[m + 1])), q) == Get(t, q)
  {
    var j := ReadIndex(t.keys, q);
    MergedGoes(t, m, Merge(AsWritten, t.kids[m], t.keys[m], t.kids[m + 1]), q);
    if j == m || j == m + 1 {
      Merged(t.kids[m], t.keys[m], t.kids[m + 1], q);
      PairReads(t, m, q);
    }
  }

  /** The separators after a borrow are still sorted. */
  lemma {:induction false} NewSepFits(t: Tree, m: nat, x: Key)
    requires InnerPair(t, m) && (x in t.kids[m].keys || x in t.kids[m + 1].keys)
    ensures Sorted(t.keys[m := x])
  {
    var keys := t.keys[m := x];
    assert m > 0 ==> t.keys[m - 1] < x;
    assert m + 1 < |t.keys| ==> x < t.keys[m + 1];
  }

  /** The children a repair may use are inner nodes between their separators. */
  ghost predicate InnerKids(t: Tree) {
    Repairable(t) && Sorted(t.keys) && forall m :: 0 <= m < |t.keys| ==> InnerPair(t, m)
  }

  /** A repair among inner nodes changes no lookup. */
  lemma {:induction false} InnerRepairReads(t: Tree, i: nat, q: Key)
    requires InnerKids(t) && i < |t.kids|
    ensures Get(HandleUnderflow(AsWritten, t, i), q) == Get(t, q)
  {
    var repaired := HandleUnderflow(AsWritten, t, i);
    if i > 0 && |t.kids[i - 1].keys| > MIN_KEYS {
      InnerBorrowLeft(t, i, q);
      assert repaired == ReplacePair(t, i - 1, BorrowLeft(AsWritten, t.kids[i - 1], t.keys[i - 1], t.kids[i]));
    } else if i < |t.keys| && |t.kids[i + 1].keys| > MIN_KEYS {
      InnerBorrowRight(t, i, q);
      assert repaired == ReplacePair(t, i, BorrowRight(AsWritten, t.kids[i], t.keys[i], t.kids[i + 1]));
    } else {
      var m := if i > 0 then i - 1 else 0;
      ReplacedMergedReads(t, m, q);
      assert repaired == ReplaceMerged(t, m, Merge(AsWritten, t.kids[m], t.keys[m], t.kids[m + 1]));
    }
  }

  lemma {:induction false} InnerBorrowLeft(t: Tree, i: nat, q: Key)
    requires 0 < i && InnerPair(t, i - 1) && |t.kids[i - 1].keys| >= 1
    ensures Get(ReplacePair(t, i - 1, BorrowLeft(AsWritten, t.kids[i - 1], t.keys[i - 1], t.kids[i])), q) == Get(t, q)
  {
    var l, s, c := t.kids[i - 1], t.keys[i - 1], t.kids[i];
    BorrowedLeft(l, s, c, q);
    NewSepFits(t, i - 1, BorrowLeft(AsWritten, l, s, c).1);
    ReplacedPairReads(t, i - 1, BorrowLeft(AsWritten, l, s, c), q);
  }

  lemma {:induction false} InnerBorrowRight(t: Tree, i: nat, q: Key)
    requires i < |t.keys| && InnerPair(t, i) && |t.kids[i + 1].keys| >= 1
    ensures Get(ReplacePair(t, i, BorrowRight(AsWritten, t.kids[i], t.keys[i], t.kids[i + 1])), q) == Get(t, q)
  {
    var c, s, r := t.kids[i], t.keys[i], t.kids[i + 1];
    BorrowedRight(c, s, r, q);
    NewSepFits(t, i, BorrowRight(AsWritten, c, s, r).1);
    ReplacedPairReads(t, i, BorrowRight(AsWritten, c, s, r), q);
  }

  // --------------------------------------------------- repairs of leaves

  /** Every child is a leaf with as many value lists as keys. */
  ghost predicate LeavesFit(t: Tree) {
    t.Node? && LocalShape(t) && forall i :: 0 <= i < |t.kids| ==> t.kids[i].Leaf? && LocalShape(t.kids[i])
  }

  lemma {:induction false} LeafFinds(t: Tree, q: Key)
    requires t.Leaf? && LocalShape(t)
    ensures Get(t, q).Found?
  {
  }

  lemma {:induction false} LeavesFind(t: Tree, q: Key)
    requires LeavesFit(t)
    ensures Get(t, q).Found?
  {
    LeafFinds(t.kids[ReadIndex(t.keys, q)], q);
  }

  /** A borrow between leaves keeps values and keys together. */
  lemma {:induction false} LeafBorrowFinds(t: Tree, m: nat, p: (Tree, Key, Tree), q: Key)
    requires LeavesFit(t) && m < |t.keys| && p.0.Leaf? && p.2.Leaf? && LocalShape(p.0) && LocalShape(p.2)
    ensures Get(ReplacePair(t, m, p), q).Found?
  {
    LeavesFind(ReplacePair(t, m, p), q);
  }

  /** The last key of a leaf merged as written has no value list; reading it is what panics, and nothing else. */
  lemma {:induction false} MergedLeafReads(l: Tree, s: Key, r: Tree, q: Key)
    requires l.Leaf? && r.Leaf? && LocalShape(l) && LocalShape(r) && r.keys != [] && Sorted(r.keys)
    requires (forall i :: 0 <= i < |l.keys| ==> l.keys[i] <= s) && s < r.keys[0]
    ensures Get(Merge(AsWritten, l, s, r), q) == Panic <==> q == r.keys[|r.keys| - 1]
  {
    var m := Merge(AsWritten, l, s, r);
    var keys, last := m.keys, r.keys[|r.keys| - 1];
    var n := |keys| - 1;
    assert keys[n] == last && |m.vals| == n;
    forall i | 0 <= i < n ensures keys[i] < last { BelowLast(l.keys, s, r.keys, i); }
  }

  lemma {:induction false} BelowLast(a: seq<Key>, s: Key, b: seq<Key>, i: nat)
    requires b != [] && Sorted(b) && (forall j :: 0 <= j < |a| ==> a[j] <= s) && s < b[0]
    requires i < |a + [s] + b| - 1
    ensures (a + [s] + b)[i] < b[|b| - 1]
  {
    assert b[0] <= b[|b| - 1];
  }

  /** Two neighbouring leaves merged as written. */
  lemma {:induction false} LeafMergePanics(t: Tree, m: nat, q: Key)
    requires LeavesFit(t) && Sorted(t.keys) && m < |t.keys|
    requires var l, r := t.kids[m], t.kids[m + 1];
      && (forall i :: 0 <= i < |l.keys| ==> l.keys[i] <= t.keys[m]) && r.keys != [] && Sorted(r.keys)
      && t.keys[m] < r.keys[0] && (m + 1 < |t.keys| ==> r.keys[|r.keys| - 1] <= t.keys[m + 1])
    ensures var r := t.kids[m + 1];
      Get(ReplaceMerged(t, m, Merge(AsWritten, t.kids[m], t.keys[m], r)), q) == Panic
      <==> q == r.keys[|r.keys| - 1] && q !in t.keys
  {
    var l, s, r := t.kids[m], t.keys[m], t.kids[m + 1];
    var j := ReadIndex(t.keys, q);
    ReadIndexGoes(t.keys, q);
    MergedGoes(t, m, Merge(AsWritten, l, s, r), q);
    if j == m || j == m + 1 {
      MergedLeafReads(l, s, r, q);
    } else {
      LeavesFind(t, q);
    }
    if q == r.keys[|r.keys| - 1] { LastGoes(t.keys, m, q, j); }
  }

  /** A key just right of a separator is a separator itself if and only if its lookup goes further right. */
  lemma {:induction false} LastGoes(keys: seq<Key>, m: nat, q: Key, j: nat)
    requires Sorted(keys) && m < |keys| && keys[m] < q && (m + 1 < |keys| ==> q <= keys[m + 1]) && GoesTo(keys, q, j)
    ensures q !in keys <==> j == m + 1
    ensures j == m + 1 || j == m + 2
  {
    if q in keys {
      var i :| 0 <= i < |keys| && keys[i] == q;
      assert i == m + 1;
    }
  }

  /** The guard of the merge: no neighbour of child `i` has a key to spare. */
  predicate MergesAt(t: Tree, i: nat)
    requires Repairable(t) && i < |t.kids|
  {
    && !(i > 0 && |t.kids[i - 1].keys| > MIN_KEYS)
    && !(i < |t.keys| && |t.kids[i + 1].keys| > MIN_KEYS)
  }

  /** The last key of the right one of the two children that a merge at `i` joins. */
  function LastAt(t: Tree, i: nat): Key
    requires Repairable(t) && i < |t.kids|
  {
    var r := t.kids[if i > 0 then i else 1];
    if r.keys == [] then EMPTY_KEY else r.keys[|r.keys| - 1]
  }

  /** Leaves in order, one of them two keys long at the least. */
  ghost predicate ShortLeaf(t: Tree, i: nat, lo: real, hi: real) {
    && Repairable(t) && i < |t.kids| && SepsOk(t.keys, lo, hi)
    && forall j :: 0 <= j < |t.kids| ==>
         WF(AsWritten, t.kids[j], 0, LowAt(t.keys, lo, j), HighAt(t.keys, hi, j),
            if j == i then MIN_KEYS - 1 else MIN_KEYS)
  }

  lemma {:induction false} ShortLeavesFit(t: Tree, i: nat, lo: real, hi: real)
    requires ShortLeaf(t, i, lo, hi)
    ensures LeavesFit(t)
  {
    forall j | 0 <= j < |t.kids| ensures t.kids[j].Leaf? && LocalShape(t.kids[j]) {
      assert WF(AsWritten, t.kids[j], 0, LowAt(t.keys, lo, j), HighAt(t.keys, hi, j),
                if j == i then MIN_KEYS - 1 else MIN_KEYS);
    }
  }

  lemma {:induction false} MergedHere(t: Tree, i: nat, lo: real, hi: real, m: nat, q: Key)
    requires ShortLeaf(t, i, lo, hi) && m < |t.keys|
    ensures var r := t.kids[m + 1];
      && r.keys != [] && t.keys[m] < r.keys[|r.keys| - 1]
      && (Get(ReplaceMerged(t, m, Merge(AsWritten, t.kids[m], t.keys[m], r)), q) == Panic
          <==> q == r.keys[|r.keys| - 1] && q !in t.keys)
  {
    ShortLeavesFit(t, i, lo, hi);
    var l, r := t.kids[m], t.kids[m + 1];
    assert WF(AsWritten, l, 0, LowAt(t.keys, lo, m), t.keys[m], if m == i then MIN_KEYS - 1 else MIN_KEYS);
    assert WF(AsWritten, r, 0, t.keys[m], HighAt(t.keys, hi, m + 1), if m + 1 == i then MIN_KEYS - 1 else MIN_KEYS);
    LeafMergePanics(t, m, q);
  }

  lemma {:induction false} MergeIs(t: Tree, i: nat, m: nat)
    requires Repairable(t) && i < |t.kids| && MergesAt(t, i) && m == if i > 0 then i - 1 else 0
    ensures m < |t.keys|
    ensures HandleUnderflow(AsWritten, t, i)
         == ReplaceMerged(t, m, Merge(AsWritten, t.kids[m], t.keys[m], t.kids[m + 1]))
  {
  }

  lemma {:induction false} LeafBorrowReads(t: Tree, i: nat, lo: real, hi: real, q: Key)
    requires ShortLeaf(t, i, lo, hi) && !MergesAt(t, i)
    ensures Get(HandleUnderflow(AsWritten, t, i), q).Found?
  {
    ShortLeavesFit(t, i, lo, hi);
    if i > 0 && |t.kids[i - 1].keys| > MIN_KEYS {
      LeafBorrowFinds(t, i - 1, BorrowLeft(AsWritten, t.kids[i - 1], t.keys[i - 1], t.kids[i]), q);
    } else {
      LeafBorrowFinds(t, i, BorrowRight(AsWritten, t.kids[i], t.keys[i], t.kids[i + 1]), q);
    }
  }

  /** The repair of a leaf makes a lookup panic exactly when it is a merge and the key its last, without a separator. */
  lemma {:induction false} LeafRepairPanics(t: Tree, i: nat, lo: real, hi: real, q: Key)
    requires ShortLeaf(t, i, lo, hi)
    ensures Get(HandleUnderflow(AsWritten, t, i), q) == Panic <==> MergesAt(t, i) && q == LastAt(t, i) && q !in t.keys
  {
    if MergesAt(t, i) {
      var m := if i > 0 then i - 1 else 0;
      MergedHere(t, i, lo, hi, m, q);
      MergeIs(t, i, m);
    } else {
      LeafBorrowReads(t, i, lo, hi, q);
    }
  }

  // ------------------------------------------------------------ the theorem

  /** The node above the leaf that a Delete works on, with the leaf as the Delete leaves it. */
  function LeafParent(t: Tree, k: Key, v: Value): (r: (Tree, nat))
    requires Shaped(t) && t.Node?
    ensures Repairable(r.0) && r.1 < |r.0.kids|
  {
    var i := WriteIndex(AsWritten, t.keys, k);
    assert Shaped(t.kids[i]);
    if t.kids[i].Node? then LeafParent(t.kids[i], k, v)
    else
      KidRepairable(AsWritten, t, i, LeafDelete(t.kids[i], k, v));
      (Node(t.keys, t.kids[i := LeafDelete(t.kids[i], k, v)]), i)
  }

  /** The repair of the leaf is a merge: neither neighbour has a key to spare. */
  predicate Merges(t: Tree, k: Key, v: Value)
    requires Shaped(t) && t.Node?
  {
    var p := LeafParent(t, k, v); MergesAt(p.0, p.1)
  }

  /** The last key of the merged leaf. */
  function LastMerged(t: Tree, k: Key, v: Value): Key
    requires Shaped(t) && t.Node?
  {
    var p := LeafParent(t, k, v); LastAt(p.0, p.1)
  }

  /** What the repair of the leaf, if it is a merge, does to a lookup. */
  ghost predicate PanicsAt(t: Tree, k: Key, v: Value, q: Key)
    requires Shaped(t) && t.Node?
  {
    Merges(t, k, v) && q == LastMerged(t, k, v) && !IsSep(t, q)
  }

  lemma {:induction false} ShortLeafAt(t: Tree, k: Key, v: Value, lo: real, hi: real, least: nat)
    requires WF(AsWritten, t, 1, lo, hi, least) && Within(AsWritten, k, lo, hi) && Shaped(t)
    ensures var i := WriteIndex(AsWritten, t.keys, k);
      t.kids[i].Leaf? && LeafParent(t, k, v).1 == i && ShortLeaf(LeafParent(t, k, v).0, i, lo, hi)
  {
    var i := WriteIndex(AsWritten, t.keys, k);
    assert WF(AsWritten, t.kids[i], 0, LowAt(t.keys, lo, i), HighAt(t.keys, hi, i), MIN_KEYS);
    LeafDeleteOk(AsWritten, t.kids[i], k, v, LowAt(t.keys, lo, i), HighAt(t.keys, hi, i));
    var n := LeafParent(t, k, v).0;
    forall j | 0 <= j < |n.kids|
      ensures WF(AsWritten, n.kids[j], 0, LowAt(n.keys, lo, j), HighAt(n.keys, hi, j),
                 if j == i then MIN_KEYS - 1 else MIN_KEYS)
    {
      assert WF(AsWritten, t.kids[j], 0, LowAt(t.keys, lo, j), HighAt(t.keys, hi, j), MIN_KEYS);
    }
  }

  lemma {:induction false} SepsOfLeafParent(t: Tree, lo: real, hi: real, least: nat, q: Key)
    requires t.Node? && WF(AsWritten, t, 1, lo, hi, least)
    ensures IsSep(t, q) <==> q in t.keys
  {
    forall i | 0 <= i < |t.kids| ensures !IsSep(t.kids[i], q) {
      assert WF(AsWritten, t.kids[i], 0, LowAt(t.keys, lo, i), HighAt(t.keys, hi, i), MIN_KEYS);
    }
  }

  /** At the bottom. */
  lemma {:induction false} BottomPanics(t: Tree, k: Key, v: Value, lo: real, hi: real, least: nat, q: Key)
    requires WF(AsWritten, t, 1, lo, hi, least) && Within(AsWritten, k, lo, hi) && Shaped(t)
    requires Underflows(AsWritten, t, k, v)
    ensures Get(RecDelete(AsWritten, t, k, v), q) == Panic <==> PanicsAt(t, k, v, q)
  {
    ShortLeafAt(t, k, v, lo, hi, least);
    var p := LeafParent(t, k, v);
    var kid := t.kids[p.1];
    assert WF(AsWritten, kid, 0, LowAt(t.keys, lo, p.1), HighAt(t.keys, hi, p.1), MIN_KEYS);
    assert Shaped(kid);
    RepairedLeafIs(t, k, v);
    LeafRepairPanics(p.0, p.1, lo, hi, q);
    SepsOfLeafParent(t, lo, hi, least, q);
  }

  /** The merged leaf's last key lies inside the bounds of the tree. */
  lemma {:induction false} LastIsWithin(t: Tree, k: Key, v: Value, h: nat, lo: real, hi: real, least: nat)
    requires t.Node? && WF(AsWritten, t, h, lo, hi, least) && Within(AsWritten, k, lo, hi) && Shaped(t) && |t.keys| >= 1
    ensures Within(AsWritten, LastMerged(t, k, v), lo, hi)
    decreases t
  {
    var i := WriteIndex(AsWritten, t.keys, k);
    WriteIndexWithin(AsWritten, t.keys, k, lo, hi);
    assert Shaped(t.kids[i]);
    var lo', hi' := LowAt(t.keys, lo, i), HighAt(t.keys, hi, i);
    assert WF(AsWritten, t.kids[i], h - 1, lo', hi', MIN_KEYS);
    if t.kids[i].Node? {
      LastIsWithin(t.kids[i], k, v, h - 1, lo', hi', MIN_KEYS);
      assert LastMerged(t, k, v) == LastMerged(t.kids[i], k, v);
    } else {
      ShortLeafAt(t, k, v, lo, hi, least);
      var n, j := LeafParent(t, k, v).0, if i > 0 then i else 1;
      assert WF(AsWritten, n.kids[j], 0, LowAt(n.keys, lo, j), HighAt(n.keys, hi, j),
                if j == i then MIN_KEYS - 1 else MIN_KEYS);
    }
  }

  lemma {:induction false} PairIsInner(t: Tree, m: nat, lo: real, hi: real)
    requires t.Node? && SepsOk(t.keys, lo, hi) && LocalShape(t) && m < |t.keys|
    requires NodeKeysOk(t.kids[m], LowAt(t.keys, lo, m), t.keys[m])
    requires NodeKeysOk(t.kids[m + 1], t.keys[m], HighAt(t.keys, hi, m + 1))
    ensures InnerPair(t, m)
  {
  }

  /** One level up from a repair below, the node with its new child is as good as repaired. */
  lemma {:induction false} RisenReads(
    t: Tree, i: nat, c: Tree, h: nat, lo: real, hi: real, least: nat, q: Key)
    requires t.Node? && WF(AsWritten, t, h, lo, hi, least) && h > 1 && i <= |t.keys|
    requires NodeKeysOk(c, LowAt(t.keys, lo, i), HighAt(t.keys, hi, i)) && Repairable(Node(t.keys, t.kids[i := c]))
    ensures var n := Node(t.keys, t.kids[i := c]);
      Get(if |c.keys| < MIN_KEYS then HandleUnderflow(AsWritten, n, i) else n, q) == Get(n, q)
  {
    var n := Node(t.keys, t.kids[i := c]);
    forall j | 0 <= j < |n.kids| ensures NodeKeysOk(n.kids[j], LowAt(n.keys, lo, j), HighAt(n.keys, hi, j)) {
      assert j == i || WF(AsWritten, t.kids[j], h - 1, LowAt(t.keys, lo, j), HighAt(t.keys, hi, j), MIN_KEYS);
    }
    forall m | 0 <= m < |n.keys| ensures InnerPair(n, m) {
      assert NodeKeysOk(n.kids[m], LowAt(n.keys, lo, m), n.keys[m]);
      assert NodeKeysOk(n.kids[m + 1], n.keys[m], HighAt(n.keys, hi, m + 1));
      PairIsInner(n, m, lo, hi);
    }
    if |c.keys| < MIN_KEYS { InnerRepairReads(n, i, q); }
  }

  /** A key inside a child's bounds is looked up there if and only if it is no separator of the node. */
  lemma {:induction false} WithinGoes(keys: seq<Key>, lo: real, hi: real, i: nat, q: Key)
    requires SepsOk(keys, lo, hi) && i <= |keys| && Within(AsWritten, q, LowAt(keys, lo, i), HighAt(keys, hi, i))
    ensures ReadIndex(keys, q) == i <==> q !in keys
  {
    var j := ReadIndex(keys, q);
    ReadIndexGoes(keys, q);
    if q in keys {
      var m :| 0 <= m < |keys| && keys[m] == q;
      assert m == i;
    } else {
      ReadIndexIs(keys, q, i);
    }
  }

  /** A lookup in a node one of whose children has changed. */
  lemma {:induction false} ChangedKidReads(t: Tree, i: nat, c: Tree, q: Key)
    requires Shaped(t) && t.Node? && i < |t.kids|
    ensures Get(Node(t.keys, t.kids[i := c]), q) == Panic <==> ReadIndex(t.keys, q) == i && Get(c, q) == Panic
  {
    var j := ReadIndex(t.keys, q);
    assert Shaped(t.kids[j]);
    if j != i { ShapedFinds(t.kids[j], q); }
  }

  /** What goes for the child goes for the node. */
  lemma {:induction false} PanicsRise(
    t: Tree, k: Key, v: Value, h: nat, lo: real, hi: real, least: nat, q: Key)
    requires WF(AsWritten, t, h, lo, hi, least) && Within(AsWritten, k, lo, hi) && Shaped(t) && h > 1
    ensures var i := WriteIndex(AsWritten, t.keys, k);
      && t.kids[i].Node? && Shaped(t.kids[i])
      && (PanicsAt(t, k, v, q) <==> ReadIndex(t.keys, q) == i && PanicsAt(t.kids[i], k, v, q))
  {
    var i := WriteIndex(AsWritten, t.keys, k);
    WriteIndexWithin(AsWritten, t.keys, k, lo, hi);
    var kid, lo', hi' := t.kids[i], LowAt(t.keys, lo, i), HighAt(t.keys, hi, i);
    assert WF(AsWritten, kid, h - 1, lo', hi', MIN_KEYS) && Shaped(kid);
    assert LeafParent(t, k, v) == LeafParent(kid, k, v);
    LastIsWithin(kid, k, v, h - 1, lo', hi', MIN_KEYS);
    if q == LastMerged(t, k, v) {
      WithinGoes(t.keys, lo, hi, i, q);
      if q !in t.keys { SepsOfOne(AsWritten, t, i, q, h, lo, hi, least); }
    }
  }

  /** What one Delete that repairs a leaf does to one lookup, in a subtree. */
  lemma {:induction false} RepairPanics(
    t: Tree, k: Key, v: Value, h: nat, lo: real, hi: real, least: nat, q: Key)
    requires WF(AsWritten, t, h, lo, hi, least) && Within(AsWritten, k, lo, hi) && Shaped(t) && t.Node?
    requires Underflows(AsWritten, t, k, v)
    ensures Get(RecDelete(AsWritten, t, k, v), q) == Panic <==> PanicsAt(t, k, v, q)
    decreases t
  {
    if h == 1 {
      BottomPanics(t, k, v, lo, hi, least, q);
    } else {
      var i := WriteIndex(AsWritten, t.keys, k);
      WriteIndexWithin(AsWritten, t.keys, k, lo, hi);
      PanicsRise(t, k, v, h, lo, hi, least, q);
      var kid, lo', hi' := t.kids[i], LowAt(t.keys, lo, i), HighAt(t.keys, hi, i);
      assert WF(AsWritten, kid, h - 1, lo', hi', MIN_KEYS);
      RepairPanics(kid, k, v, h - 1, lo', hi', MIN_KEYS, q);
      RepairedLeafAnswersWrong(kid, k, v, h - 1, lo', hi', MIN_KEYS);
      KidChanges(kid, k, v, h - 1, lo', hi', MIN_KEYS);
      RecDeleteOfNode(t, k, v);
      var c := RecDelete(AsWritten, kid, k, v);
      RisenReads(t, i, c, h, lo, hi, least, q);
      ChangedKidReads(t, i, c, q);
    }
  }

  lemma {:induction false} KidChanges(t: Tree, k: Key, v: Value, h: nat, lo: real, hi: real, least: nat)
    requires WF(AsWritten, t, h, lo, hi, least) && Within(AsWritten, k, lo, hi) && Shaped(t) && t.Node?
    requires Underflows(AsWritten, t, k, v)
    ensures RecDelete(AsWritten, t, k, v) != t
  {
    var s := WrongSep(t, k, v);
    RepairedLeafAnswersWrong(t, k, v, h, lo, hi, least);
    WrongSepIsSep(t, k, v, h, lo, hi, least);
    GetReadsVals(AsWritten, t, s, h, lo, hi, least);
  }

  /**
   As written, a lookup panics after a Delete from a standing tree if and only if the Delete merges two leaves and the
   key is the last of the merged leaf and no separator of the tree.
   */
  lemma {:induction false} DeletePanicsExactly(t: Tree, k: Key, v: Value, q: Key)
    requires Stands(AsWritten, t)
    ensures Get(Delete(AsWritten, t, k, v), q) == Panic <==> Underflows(AsWritten, t, k, v) && PanicsAt(t, k, v, q)
  {
    if Underflows(AsWritten, t, k, v) {
      var h :| RootOk(AsWritten, t, h);
      RepairPanics(t, k, v, h, LOW, HIGH, 1, q);
      RepairedLeafAnswersWrong(t, k, v, h, LOW, HIGH, 1);
      var r := RecDelete(AsWritten, t, k, v);
      if |r.keys| == 0 { ReadsChild(r, q, 0); }
    } else {
      ApplyStands(AsWritten, t, DeleteOp(k, v));
      GetOnStanding(AsWritten, Apply(AsWritten, t, DeleteOp(k, v)), q);
    }
  }

  /** So some lookup panics if and only if a merged leaf ends in a key that is no separator. */
  lemma {:induction false} SomeLookupPanics(t: Tree, k: Key, v: Value)
    requires Stands(AsWritten, t)
    ensures (exists q :: Get(Delete(AsWritten, t, k, v), q) == Panic)
       <==> Underflows(AsWritten, t, k, v) && Merges(t, k, v) && !IsSep(t, LastMerged(t, k, v))
  {
    if Underflows(AsWritten, t, k, v) { DeletePanicsExactly(t, k, v, LastMerged(t, k, v)); }
    if q :| Get(Delete(AsWritten, t, k, v), q) == Panic { DeletePanicsExactly(t, k, v, q); }
  }
}
