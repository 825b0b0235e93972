/**
 What Delete does to the values a tree holds, and what the code as written does to a
 lookup once it has to repair a leaf.
 */
module ProllyTreeDelete {
  import opened Keys
  import opened ProllyTree
  import opened ProllyTreeShape
  import opened ProllyTreeContents
  import Seqs

  // --------------------------------------------------- values are kept

  function AfterDelete(t: Tree, k: Key, v: Value, q: Key): seq<Value> {
    if q == k then Without(Vals(t, q), v) else Vals(t, q)
  }

  lemma {:induction false} LeafDeleteVals(t: Tree, k: Key, v: Value, q: Key)
    requires t.Leaf? && LocalShape(t) && Sorted(t.keys)
    ensures Vals(LeafDelete(t, k, v), q) == AfterDelete(t, k, v, q)
  {
    var i, r := Search(t.keys, k), LeafDelete(t, k, v);
    if Holds(t.keys, k) {
      LeafValsMid(t.keys, t.vals, i, q);
      LeafValsAt(t.keys, t.vals, i);
      if Without(t.vals[i], v) == [] {
        LeafValsAppend(t.keys[..i], t.vals[..i], t.keys[i + 1..], t.vals[i + 1..], q);
      } else {
        LeafValsMid(r.keys, r.vals, i, q);
        assert r.vals[..i] == t.vals[..i] && r.vals[i + 1..] == t.vals[i + 1..];
      }
    } else {
      NotHeld(t.keys, k);
      LeafValsAbsent(t.keys, t.vals, k);
    }
  }

  lemma {:induction false} BorrowVals(rule: Rule, l: Tree, s: Key, c: Tree, q: Key)
    requires LocalShape(l) && LocalShape(c) && l.Leaf? == c.Leaf? && (rule.Intended? || l.Node?)
    ensures |l.keys| >= 1 ==> var p := BorrowLeft(rule, l, s, c); Vals(p.0, q) + Vals(p.2, q) == Vals(l, q) + Vals(c, q)
  {
    if |l.keys| >= 1 {
      var n := |l.keys| - 1;
      if l.Leaf? {
        LeafValsMid(l.keys, l.vals, n, q);
        assert l.keys[n + 1..] == [] && ([l.keys[n]] + c.keys)[1..] == c.keys && ([l.vals[n]] + c.vals)[1..] == c.vals;
      } else {
        ForestValsAppend(l.kids[..n + 1], [l.kids[n + 1]], q);
        assert l.kids == l.kids[..n + 1] + [l.kids[n + 1]];
        ForestValsAppend([l.kids[n + 1]], c.kids, q);
      }
    }
  }

  lemma {:induction false} BorrowRightVals(rule: Rule, c: Tree, s: Key, r: Tree, q: Key)
    requires LocalShape(c) && LocalShape(r) && c.Leaf? == r.Leaf? && (rule.Intended? || c.Node?) && |r.keys| >= 2
    ensures var p := BorrowRight(rule, c, s, r); Vals(p.0, q) + Vals(p.2, q) == Vals(c, q) + Vals(r, q)
  {
    if c.Leaf? {
      LeafValsAppend(c.keys, c.vals, [r.keys[0]], [r.vals[0]], q);
      LeafValsMid(r.keys, r.vals, 0, q);
      assert LeafVals([r.keys[0]], [r.vals[0]], q) == if r.keys[0] == q then r.vals[0] else [];
    } else {
      ForestValsAppend(c.kids, [r.kids[0]], q);
      assert r.kids == [r.kids[0]] + r.kids[1..];
      ForestValsAppend([r.kids[0]], r.kids[1..], q);
    }
  }

  lemma {:induction false} MergeVals(rule: Rule, l: Tree, s: Key, r: Tree, q: Key)
    requires LocalShape(l) && LocalShape(r) && l.Leaf? == r.Leaf? && (rule.Intended? || l.Node?)
    ensures Vals(Merge(rule, l, s, r), q) == Vals(l, q) + Vals(r, q)
  {
    if l.Leaf? {
      LeafValsAppend(l.keys, l.vals, r.keys, r.vals, q);
      assert l.keys + [] + r.keys == l.keys + r.keys;
    } else {
      ForestValsAppend(l.kids, r.kids, q);
    }
  }

  /** Neighbours replaced by trees with the same values. */
  lemma {:induction false} PairVals(kids: seq<Tree>, i: nat, news: seq<Tree>, q: Key)
    requires i + 1 < |kids|
    requires ForestVals(news, q) == Vals(kids[i], q) + Vals(kids[i + 1], q)
    ensures ForestVals(kids[..i] + news + kids[i + 2..], q) == ForestVals(kids, q)
  {
    ForestValsMid(kids, i, i + 2, q);
    assert kids[i..i + 2] == [kids[i], kids[i + 1]];
    assert [kids[i], kids[i + 1]][1..] == [kids[i + 1]] && ForestVals([kids[i + 1]], q) == Vals(kids[i + 1], q);
    ForestValsAppend(kids[..i] + news, kids[i + 2..], q);
    ForestValsAppend(kids[..i], news, q);
  }

  lemma {:induction false} ReplacePairVals(t: Tree, i: nat, p: (Tree, Key, Tree), q: Key)
    requires t.Node? && LocalShape(t) && i < |t.keys|
    requires Vals(p.0, q) + Vals(p.2, q) == Vals(t.kids[i], q) + Vals(t.kids[i + 1], q)
    ensures Vals(ReplacePair(t, i, p), q) == Vals(t, q)
  {
    assert [p.0, p.2][1..] == [p.2] && ForestVals([p.2], q) == Vals(p.2, q);
    PairVals(t.kids, i, [p.0, p.2], q);
    assert t.kids[i := p.0][i + 1 := p.2] == t.kids[..i] + [p.0, p.2] + t.kids[i + 2..];
  }

  lemma {:induction false} ReplaceMergedVals(t: Tree, i: nat, m: Tree, q: Key)
    requires t.Node? && LocalShape(t) && i < |t.keys|
    requires Vals(m, q) == Vals(t.kids[i], q) + Vals(t.kids[i + 1], q)
    ensures Vals(ReplaceMerged(t, i, m), q) == Vals(t, q)
  {
    assert ForestVals([m], q) == Vals(m, q);
    PairVals(t.kids, i, [m], q);
  }

  /** A repair moves values between neighbours and loses none. */
  lemma {:induction false} HandleUnderflowVals(rule: Rule, t: Tree, i: nat, q: Key)
    requires Repairable(t) && i < |t.kids| && (rule.Intended? || t.kids[0].Node?)
    ensures Vals(HandleUnderflow(rule, t, i), q) == Vals(t, q)
  {
    if i > 0 && |t.kids[i - 1].keys| > MIN_KEYS {
      BorrowedLeftVals(rule, t, i, q);
    } else if i < |t.keys| && |t.kids[i + 1].keys| > MIN_KEYS {
      BorrowedRightVals(rule, t, i, q);
    } else {
      MergedVals(rule, t, if i > 0 then i - 1 else i, q);
    }
  }

  lemma {:induction false} BorrowedLeftVals(rule: Rule, t: Tree, i: nat, q: Key)
    requires Repairable(t) && 0 < i < |t.kids| && (rule.Intended? || t.kids[0].Node?) && |t.kids[i - 1].keys| > MIN_KEYS
    ensures Vals(ReplacePair(t, i - 1, BorrowLeft(rule, t.kids[i - 1], t.keys[i - 1], t.kids[i])), q) == Vals(t, q)
  {
    BorrowVals(rule, t.kids[i - 1], t.keys[i - 1], t.kids[i], q);
    ReplacePairVals(t, i - 1, BorrowLeft(rule, t.kids[i - 1], t.keys[i - 1], t.kids[i]), q);
  }

  lemma {:induction false} BorrowedRightVals(rule: Rule, t: Tree, i: nat, q: Key)
    requires Repairable(t) && i < |t.keys| && (rule.Intended? || t.kids[0].Node?) && |t.kids[i + 1].keys| > MIN_KEYS
    ensures Vals(ReplacePair(t, i, BorrowRight(rule, t.kids[i], t.keys[i], t.kids[i + 1])), q) == Vals(t, q)
  {
    BorrowRightVals(rule, t.kids[i], t.keys[i], t.kids[i + 1], q);
    ReplacePairVals(t, i, BorrowRight(rule, t.kids[i], t.keys[i], t.kids[i + 1]), q);
  }

  lemma {:induction false} MergedVals(rule: Rule, t: Tree, i: nat, q: Key)
    requires Repairable(t) && i < |t.keys| && (rule.Intended? || t.kids[0].Node?)
    ensures Vals(ReplaceMerged(t, i, Merge(rule, t.kids[i], t.keys[i], t.kids[i + 1])), q) == Vals(t, q)
  {
    MergeVals(rule, t.kids[i], t.keys[i], t.kids[i + 1], q);
    ReplaceMergedVals(t, i, Merge(rule, t.kids[i], t.keys[i], t.kids[i + 1]), q);
  }

  lemma {:induction false} DeleteStepVals(
    rule: Rule, t: Tree, k: Key, v: Value, i: nat, c: Tree, q: Key, h: nat, lo: real, hi: real, least: nat)
    requires t.Node? && WF(rule, t, h, lo, hi, least) && i <= |t.keys|
    requires Within(rule, k, LowAt(t.keys, lo, i), HighAt(t.keys, hi, i))
    requires Vals(c, q) == AfterDelete(t.kids[i], k, v, q)
    requires Repairable(Node(t.keys, t.kids[i := c]))
    requires rule.AsWritten? ==> |c.keys| >= MIN_KEYS
    ensures var n := Node(t.keys, t.kids[i := c]);
            Vals(if |c.keys| < MIN_KEYS then HandleUnderflow(rule, n, i) else n, q) == AfterDelete(t, k, v, q)
  {
    var n := Node(t.keys, t.kids[i := c]);
    if |c.keys| < MIN_KEYS { HandleUnderflowVals(rule, n, i, q); }
    assert n == Replace(t, i, Done(c));
    ReplaceVals(t, i, Done(c), q);
    RestVals(rule, t, i, q, h, lo, hi, least);
    if q == k { assert Vals(t, q) == Vals(t.kids[i], q) && Vals(n, q) == Vals(c, q); }
  }

  lemma {:induction false} RecDeleteVals(
    rule: Rule, t: Tree, k: Key, v: Value, q: Key, h: nat, lo: real, hi: real, least: nat)
    requires WF(rule, t, h, lo, hi, least) && Within(rule, k, lo, hi) && Shaped(t)
    requires rule.AsWritten? ==> !Underflows(rule, t, k, v)
    ensures Vals(RecDelete(rule, t, k, v), q) == AfterDelete(t, k, v, q)
    decreases t
  {
    if t.Leaf? {
      LeafDeleteVals(t, k, v, q);
    } else {
      var i := WriteIndex(rule, t.keys, k);
      WriteIndexWithin(rule, t.keys, k, lo, hi);
      var lo', hi' := LowAt(t.keys, lo, i), HighAt(t.keys, hi, i);
      assert WF(rule, t.kids[i], h - 1, lo', hi', MIN_KEYS);
      RecDeleteVals(rule, t.kids[i], k, v, q, h - 1, lo', hi', MIN_KEYS);
      RecDeleteOk(rule, t.kids[i], k, v, h - 1, lo', hi', MIN_KEYS);
      var c := RecDelete(rule, t.kids[i], k, v);
      KidRepairable(rule, t, i, c);
      DeleteStepVals(rule, t, k, v, i, c, q, h, lo, hi, least);
      assert c == t.kids[i] ==> Node(t.keys, t.kids[i := c]) == t;
    }
  }

  lemma {:induction false} RecDeleteSeps(t: Tree, k: Key, v: Value, q: Key, h: nat, lo: real, hi: real, least: nat)
    requires WF(AsWritten, t, h, lo, hi, least) && Within(AsWritten, k, lo, hi) && Shaped(t)
    requires !Underflows(AsWritten, t, k, v)
    ensures IsSep(RecDelete(AsWritten, t, k, v), q) <==> IsSep(t, q)
    decreases t
  {
    if t.Node? {
      var i := WriteIndex(AsWritten, t.keys, k);
      WriteIndexWithin(AsWritten, t.keys, k, lo, hi);
      var lo', hi' := LowAt(t.keys, lo, i), HighAt(t.keys, hi, i);
      assert WF(AsWritten, t.kids[i], h - 1, lo', hi', MIN_KEYS);
      RecDeleteSeps(t.kids[i], k, v, q, h - 1, lo', hi', MIN_KEYS);
      RecDeleteOk(AsWritten, t.kids[i], k, v, h - 1, lo', hi', MIN_KEYS);
      var c := RecDelete(AsWritten, t.kids[i], k, v);
      assert Replace(t, i, Done(c)) == Node(t.keys, t.kids[i := c]);
      ReplaceSeps(t, i, Done(c), q);
      OneKidSeps(t.kids, i, q);
    }
  }

  lemma {:induction false} DeleteVals(rule: Rule, t: Tree, k: Key, v: Value, h: nat, q: Key)
    requires RootOk(rule, t, h) && Shaped(t)
    requires rule.AsWritten? ==> !Underflows(rule, t, k, v)
    ensures Vals(Delete(rule, t, k, v), q) == AfterDelete(t, k, v, q)
    ensures rule.AsWritten? ==> (IsSep(Delete(rule, t, k, v), q) <==> IsSep(t, q))
  {
    var least := if t.Leaf? then 0 else 1;
    RecDeleteVals(rule, t, k, v, q, h, LOW, HIGH, least);
    RecDeleteOk(rule, t, k, v, h, LOW, HIGH, least);
    if rule.AsWritten? { RecDeleteSeps(t, k, v, q, h, LOW, HIGH, least); }
    var r := RecDelete(rule, t, k, v);
    if r.Node? && |r.keys| == 0 {
      assert r.kids == [r.kids[0]] && ForestVals([r.kids[0]], q) == Vals(r.kids[0], q);
    }
  }

  // --------------------------- as written, once a leaf has to be repaired

  /** The keys of an inner node are in order and inside its bounds. */
  predicate NodeKeysOk(t: Tree, lo: real, hi: real) {
    t.Node? && SepsOk(t.keys, lo, hi) && |t.kids| == |t.keys| + 1
  }

  /** The lookup of `s` finds something. */
  predicate Finds(t: Tree, s: Key) {
    Get(t, s).Found? && Get(t, s).vs != []
  }

  lemma {:induction false} SearchBehind(a: seq<Key>, b: seq<Key>, s: Key)
    requires Sorted(a + b) && forall i :: 0 <= i < |a| ==> a[i] < s
    ensures Search(a + b, s) == |a| + Search(b, s) && ReadIndex(a + b, s) == |a| + ReadIndex(b, s)
  {
    SearchUnique(a + b, s, |a| + Search(b, s));
  }

  lemma {:induction false} SearchBefore(a: seq<Key>, b: seq<Key>, s: Key)
    requires Sorted(a + b) && forall i :: 0 <= i < |b| ==> s < b[i]
    ensures Search(a + b, s) == Search(a, s) && ReadIndex(a + b, s) == ReadIndex(a, s)
  {
    SearchUnique(a + b, s, Search(a, s));
  }

  /** The child a key strictly between two neighbouring separators is looked up in. */
  lemma {:induction false} ReadsChild(t: Tree, s: Key, i: nat)
    requires t.Node? && Sorted(t.keys) && i <= |t.keys| && i < |t.kids|
    requires (i > 0 ==> t.keys[i - 1] <= s) && (i < |t.keys| ==> s < t.keys[i])
    ensures Get(t, s) == Get(t.kids[i], s)
  {
    if i > 0 && t.keys[i - 1] == s { SearchUnique(t.keys, s, i - 1); } else { SearchUnique(t.keys, s, i); }
  }

  /** The separator between the short leaf and the neighbour it is repaired from. */
  function RepairSep(t: Tree, i: nat): nat
    requires Repairable(t) && i < |t.kids|
  {
    if i > 0 && (|t.kids[i - 1].keys| > MIN_KEYS || i == |t.keys| || |t.kids[i + 1].keys| <= MIN_KEYS) then i - 1 else i
  }

  /** A key of a leaf whose values are there and not empty is found. */
  lemma {:induction false} LeafFinds(keys: seq<Key>, vals: seq<seq<Value>>, i: nat, s: Key)
    requires i < |keys| && i < |vals| && keys[i] == s && vals[i] != []
    requires forall j :: 0 <= j < i ==> keys[j] < s
    ensures Finds(Leaf(keys, vals), s)
  {
    assert Search(keys, s) == i;
  }

  /** As written, a borrowed or merged leaf answers for the old separator with values of another key. */
  lemma {:induction false} LeafBorrowLeftFinds(l: Tree, s: Key, c: Tree)
    requires l.Leaf? && c.Leaf? && LocalShape(c) && |l.keys| > MIN_KEYS && LocalShape(l)
    requires forall i :: 0 <= i < |l.vals| ==> l.vals[i] != []
    ensures Finds(BorrowLeft(AsWritten, l, s, c).2, s)
  {
    var p := BorrowLeft(AsWritten, l, s, c).2;
    LeafFinds(p.keys, p.vals, 0, s);
  }

  lemma {:induction false} LeafAppendFinds(c: Tree, s: Key, ks: seq<Key>, vs: seq<seq<Value>>, lo: real)
    requires c.Leaf? && LeafOk(AsWritten, c.keys, c.vals, lo, s) && |vs| >= 1 && vs[0] != []
    ensures Finds(Leaf(c.keys + [s] + ks, c.vals + vs), s)
  {
    var n := |c.keys|;
    if n > 0 && c.keys[n - 1] == s {
      LeafFinds(c.keys + [s] + ks, c.vals + vs, n - 1, s);
    } else {
      forall j | 0 <= j < n ensures c.keys[j] < s { if j < n - 1 { assert c.keys[j] < c.keys[n - 1]; } }
      LeafFinds(c.keys + [s] + ks, c.vals + vs, n, s);
    }
  }

  lemma {:induction false} SepReplaced(keys: seq<Key>, i: nat, s: Key, lo: real, hi: real)
    requires SepsOk(keys, lo, hi) && i < |keys| && LowAt(keys, lo, i) < s as real < HighAt(keys, hi, i + 1)
    ensures SepsOk(keys[i := s], lo, hi)
  {
    assert lo < s as real < hi;
  }

  lemma {:induction false} SepRemoved(keys: seq<Key>, i: nat, lo: real, hi: real)
    requires SepsOk(keys, lo, hi) && i < |keys|
    ensures SepsOk(RemoveAt(keys, i), lo, hi)
  {
  }

  /** The neighbours of child `i`, and the separators around it. */
  predicate AtChild(t: Tree, i: nat, lo: real, hi: real) {
    t.Node? && SepsOk(t.keys, lo, hi) && |t.kids| == |t.keys| + 1 && 1 <= |t.keys| && i <= |t.keys|
  }

  lemma {:induction false} LeafBorrowLeftReads(t: Tree, i: nat, lo: real, hi: real)
    requires AtChild(t, i, lo, hi) && i > 0 && t.kids[i - 1].Leaf? && t.kids[i].Leaf? && LocalShape(t.kids[i])
    requires WF(AsWritten, t.kids[i - 1], 0, LowAt(t.keys, lo, i - 1), t.keys[i - 1], MIN_KEYS + 1)
    ensures var r := ReplacePair(t, i - 1, BorrowLeft(AsWritten, t.kids[i - 1], t.keys[i - 1], t.kids[i]));
            NodeKeysOk(r, lo, hi) && Finds(r, t.keys[i - 1])
  {
    var l, s := t.kids[i - 1], t.keys[i - 1];
    var p := BorrowLeft(AsWritten, l, s, t.kids[i]);
    var r := ReplacePair(t, i - 1, p);
    LeafBorrowLeftFinds(l, s, t.kids[i]);
    assert l.keys[|l.keys| - 1] == p.1 && LowAt(t.keys, lo, i - 1) < p.1 as real <= s as real < HighAt(t.keys, hi, i);
    SepReplaced(t.keys, i - 1, p.1, lo, hi);
    ReadsChild(r, s, i);
  }

  lemma {:induction false} LeafBorrowRightReads(t: Tree, i: nat, lo: real, hi: real)
    requires AtChild(t, i, lo, hi) && i < |t.keys| && t.kids[i].Leaf? && t.kids[i + 1].Leaf?
    requires LeafOk(AsWritten, t.kids[i].keys, t.kids[i].vals, LowAt(t.keys, lo, i), t.keys[i])
    requires WF(AsWritten, t.kids[i + 1], 0, t.keys[i], HighAt(t.keys, hi, i + 1), MIN_KEYS + 1)
    ensures var r := ReplacePair(t, i, BorrowRight(AsWritten, t.kids[i], t.keys[i], t.kids[i + 1]));
            NodeKeysOk(r, lo, hi) && Finds(r, t.keys[i])
  {
    var c, s, n := t.kids[i], t.keys[i], t.kids[i + 1];
    var p := BorrowRight(AsWritten, c, s, n);
    var r := ReplacePair(t, i, p);
    LeafAppendFinds(c, s, [], [n.vals[0]], LowAt(t.keys, lo, i));
    Seqs.Empty(c.keys + [s]);
    assert n.keys[0] < n.keys[1] && n.keys[0] == p.1;
    SepReplaced(t.keys, i, p.1, lo, hi);
    ReadsChild(r, s, i);
  }

  /** A merge of the children `i` and `i + 1`. */
  lemma {:induction false} LeafMergeReads(t: Tree, i: nat, lo: real, hi: real)
    requires AtChild(t, i, lo, hi) && i < |t.keys| && t.kids[i].Leaf? && t.kids[i + 1].Leaf?
    requires LeafOk(AsWritten, t.kids[i].keys, t.kids[i].vals, LowAt(t.keys, lo, i), t.keys[i])
    requires WF(AsWritten, t.kids[i + 1], 0, t.keys[i], HighAt(t.keys, hi, i + 1), 1)
    ensures var r := ReplaceMerged(t, i, Merge(AsWritten, t.kids[i], t.keys[i], t.kids[i + 1]));
            NodeKeysOk(r, lo, hi) && Finds(r, t.keys[i])
  {
    var c, s, n := t.kids[i], t.keys[i], t.kids[i + 1];
    var r := ReplaceMerged(t, i, Merge(AsWritten, c, s, n));
    LeafAppendFinds(c, s, n.keys, n.vals, LowAt(t.keys, lo, i));
    SepRemoved(t.keys, i, lo, hi);
    ReadsChild(r, s, i);
  }

  lemma {:induction false} LeafRepairFinds(keys: seq<Key>, kids: seq<Tree>, i: nat, c: Tree, lo: real, hi: real)
    requires KidsOk(AsWritten, keys, kids, 0, lo, hi) && 1 <= |keys| && i <= |keys|
    requires c.Leaf? && WF(AsWritten, c, 0, LowAt(keys, lo, i), HighAt(keys, hi, i), MIN_KEYS - 1)
    requires Repairable(Node(keys, kids[i := c]))
    ensures var t := Node(keys, kids[i := c]); var r := HandleUnderflow(AsWritten, t, i);
            NodeKeysOk(r, lo, hi) && Finds(r, keys[RepairSep(t, i)])
  {
    var t := Node(keys, kids[i := c]);
    if i > 0 {
      assert WF(AsWritten, kids[i - 1], 0, LowAt(keys, lo, i - 1), HighAt(keys, hi, i - 1), MIN_KEYS);
    }
    if i < |keys| {
      assert WF(AsWritten, kids[i + 1], 0, LowAt(keys, lo, i + 1), HighAt(keys, hi, i + 1), MIN_KEYS);
    }
    if i > 0 && |kids[i - 1].keys| > MIN_KEYS {
      LeafBorrowLeftReads(t, i, lo, hi);
    } else if i < |keys| && |kids[i + 1].keys| > MIN_KEYS {
      LeafBorrowRightReads(t, i, lo, hi);
    } else if i > 0 {
      LeafMergeReads(t, i - 1, lo, hi);
    } else {
      LeafMergeReads(t, 0, lo, hi);
    }
  }

  lemma {:induction false} NodeBorrowLeftReads(t: Tree, i: nat, lo: real, hi: real, s: Key)
    requires AtChild(t, i, lo, hi) && i > 0
    requires NodeKeysOk(t.kids[i - 1], LowAt(t.keys, lo, i - 1), t.keys[i - 1]) && |t.kids[i - 1].keys| > MIN_KEYS
    requires NodeKeysOk(t.kids[i], t.keys[i - 1], HighAt(t.keys, hi, i))
    requires t.keys[i - 1] as real < s as real < HighAt(t.keys, hi, i)
    ensures var r := ReplacePair(t, i - 1, BorrowLeft(AsWritten, t.kids[i - 1], t.keys[i - 1], t.kids[i]));
            NodeKeysOk(r, lo, hi) && Get(r, s) == Get(t.kids[i], s)
  {
    var l, c := t.kids[i - 1], t.kids[i];
    var p := BorrowLeft(AsWritten, l, t.keys[i - 1], c);
    assert p.1 == l.keys[|l.keys| - 1];
    SepReplaced(t.keys, i - 1, p.1, lo, hi);
    ReadsBehind(c, t.keys[i - 1], l.kids[|l.kids| - 1], HighAt(t.keys, hi, i), s);
    ReadsChild(ReplacePair(t, i - 1, p), s, i);
  }

  /** One more child before the others. */
  lemma {:induction false} ReadsBehind(c: Tree, sep: Key, kid: Tree, hi: real, s: Key)
    requires NodeKeysOk(c, sep, hi) && sep < s
    ensures Get(Node([sep] + c.keys, [kid] + c.kids), s) == Get(c, s)
  {
    SearchBehind([sep], c.keys, s);
    assert ([kid] + c.kids)[1 + ReadIndex(c.keys, s)] == c.kids[ReadIndex(c.keys, s)];
  }

  /** One more child behind the others. */
  lemma {:induction false} ReadsBefore(c: Tree, sep: Key, kid: Tree, lo: real, s: Key)
    requires NodeKeysOk(c, lo, sep) && s < sep
    ensures Get(Node(c.keys + [sep], c.kids + [kid]), s) == Get(c, s)
  {
    SearchBefore(c.keys, [sep], s);
    assert (c.kids + [kid])[ReadIndex(c.keys, s)] == c.kids[ReadIndex(c.keys, s)];
  }

  lemma {:induction false} NodeBorrowRightReads(t: Tree, i: nat, lo: real, hi: real, s: Key)
    requires AtChild(t, i, lo, hi) && i < |t.keys|
    requires NodeKeysOk(t.kids[i], LowAt(t.keys, lo, i), t.keys[i])
    requires LowAt(t.keys, lo, i) < s as real < t.keys[i] as real
    requires NodeKeysOk(t.kids[i + 1], t.keys[i], HighAt(t.keys, hi, i + 1)) && |t.kids[i + 1].keys| > MIN_KEYS
    ensures var r := ReplacePair(t, i, BorrowRight(AsWritten, t.kids[i], t.keys[i], t.kids[i + 1]));
            NodeKeysOk(r, lo, hi) && Get(r, s) == Get(t.kids[i], s)
  {
    var c := t.kids[i];
    var p := BorrowRight(AsWritten, c, t.keys[i], t.kids[i + 1]);
    assert p.1 == t.kids[i + 1].keys[0];
    SepReplaced(t.keys, i, p.1, lo, hi);
    ReadsBefore(c, t.keys[i], t.kids[i + 1].kids[0], LowAt(t.keys, lo, i), s);
    ReadsChild(ReplacePair(t, i, p), s, i);
  }

  /** A merge of the children `i` and `i + 1`, for a key inside the bounds of one of them. */
  lemma {:induction false} NodeMergeReads(t: Tree, i: nat, lo: real, hi: real, s: Key)
    requires AtChild(t, i, lo, hi) && i < |t.keys|
    requires NodeKeysOk(t.kids[i], LowAt(t.keys, lo, i), t.keys[i])
    requires NodeKeysOk(t.kids[i + 1], t.keys[i], HighAt(t.keys, hi, i + 1))
    requires LowAt(t.keys, lo, i) < s as real < HighAt(t.keys, hi, i + 1) && s != t.keys[i]
    ensures var r := ReplaceMerged(t, i, Merge(AsWritten, t.kids[i], t.keys[i], t.kids[i + 1]));
            NodeKeysOk(r, lo, hi) && Get(r, s) == Get(if s < t.keys[i] then t.kids[i] else t.kids[i + 1], s)
  {
    var c, n, sep := t.kids[i], t.kids[i + 1], t.keys[i];
    var m := Merge(AsWritten, c, sep, n);
    SepRemoved(t.keys, i, lo, hi);
    ReadsChild(ReplaceMerged(t, i, m), s, i);
    MergedReads(c, sep, n, LowAt(t.keys, lo, i), HighAt(t.keys, hi, i + 1), s);
  }

  lemma {:induction false} MergedReads(c: Tree, sep: Key, n: Tree, lo: real, hi: real, s: Key)
    requires NodeKeysOk(c, lo, sep) && NodeKeysOk(n, sep, hi) && s != sep
    ensures Get(Merge(AsWritten, c, sep, n), s) == Get(if s < sep then c else n, s)
  {
    SepsJoined(c.keys, sep, n.keys, lo, hi);
    if s < sep {
      Seqs.Assoc(c.keys, [sep], n.keys);
      SearchBefore(c.keys, [sep] + n.keys, s);
    } else {
      SearchBehind(c.keys + [sep], n.keys, s);
    }
  }

  lemma {:induction false} SepsJoined(a: seq<Key>, sep: Key, b: seq<Key>, lo: real, hi: real)
    requires SepsOk(a, lo, sep) && SepsOk(b, sep, hi)
    ensures Sorted(a + [sep] + b)
  {
  }

  /** Higher up the repair is the ordinary one: it leads every lookup inside the child's bounds to the same place. */
  lemma {:induction false} NodeRepairReads(
    keys: seq<Key>, kids: seq<Tree>, i: nat, c: Tree, h: nat, lo: real, hi: real, s: Key)
    requires KidsOk(AsWritten, keys, kids, h, lo, hi) && h > 0 && 1 <= |keys| && i <= |keys|
    requires NodeKeysOk(c, LowAt(keys, lo, i), HighAt(keys, hi, i))
    requires LowAt(keys, lo, i) < s as real < HighAt(keys, hi, i)
    requires Repairable(Node(keys, kids[i := c]))
    ensures var r := HandleUnderflow(AsWritten, Node(keys, kids[i := c]), i);
            NodeKeysOk(r, lo, hi) && Get(r, s) == Get(c, s)
  {
    var t := Node(keys, kids[i := c]);
    if i > 0 {
      assert WF(AsWritten, kids[i - 1], h, LowAt(keys, lo, i - 1), HighAt(keys, hi, i - 1), MIN_KEYS);
    }
    if i < |keys| {
      assert WF(AsWritten, kids[i + 1], h, LowAt(keys, lo, i + 1), HighAt(keys, hi, i + 1), MIN_KEYS);
    }
    if i > 0 && |kids[i - 1].keys| > MIN_KEYS {
      NodeBorrowLeftReads(t, i, lo, hi, s);
    } else if i < |keys| && |kids[i + 1].keys| > MIN_KEYS {
      NodeBorrowRightReads(t, i, lo, hi, s);
    } else if i > 0 {
      NodeMergeReads(t, i - 1, lo, hi, s);
    } else {
      NodeMergeReads(t, 0, lo, hi, s);
    }
  }

  /** The separator whose lookup goes wrong: the one beside the leaf that is repaired. */
  function WrongSep(t: Tree, k: Key, v: Value): Key
    requires Shaped(t) && t.Node?
  {
    var i := WriteIndex(AsWritten, t.keys, k);
    if t.kids[i].Node? then WrongSep(t.kids[i], k, v)
    else
      var c := RecDelete(AsWritten, t.kids[i], k, v);
      KidRepairable(AsWritten, t, i, c);
      t.keys[RepairSep(Node(t.keys, t.kids[i := c]), i)]
  }

  lemma {:induction false} WrongSepIsSep(t: Tree, k: Key, v: Value, h: nat, lo: real, hi: real, least: nat)
    requires WF(AsWritten, t, h, lo, hi, least) && Shaped(t) && t.Node?
    ensures IsSep(t, WrongSep(t, k, v)) && lo < WrongSep(t, k, v) as real < hi
    decreases t
  {
    var i := WriteIndex(AsWritten, t.keys, k);
    if t.kids[i].Node? {
      WrongSepIsSep(t.kids[i], k, v, h - 1, LowAt(t.keys, lo, i), HighAt(t.keys, hi, i), MIN_KEYS);
      SepsAreInside(AsWritten, t, WrongSep(t, k, v), h, lo, hi, least);
    }
  }

  /** One level up from a repair below: the wrong answer stays. */
  lemma {:induction false} WrongAnswerRises(t: Tree, i: nat, c: Tree, s: Key, h: nat, lo: real, hi: real, least: nat)
    requires t.Node? && WF(AsWritten, t, h, lo, hi, least) && h > 1 && 1 <= |t.keys| && i <= |t.keys|
    requires NodeKeysOk(c, LowAt(t.keys, lo, i), HighAt(t.keys, hi, i)) && Finds(c, s)
    requires LowAt(t.keys, lo, i) < s as real < HighAt(t.keys, hi, i)
    requires Repairable(Node(t.keys, t.kids[i := c]))
    ensures var n := Node(t.keys, t.kids[i := c]);
            var r := if |c.keys| < MIN_KEYS then HandleUnderflow(AsWritten, n, i) else n;
            NodeKeysOk(r, lo, hi) && Finds(r, s)
  {
    if |c.keys| < MIN_KEYS {
      assert KidsOk(AsWritten, t.keys, t.kids, h - 1, lo, hi);
      NodeRepairReads(t.keys, t.kids, i, c, h - 1, lo, hi, s);
    } else {
      ReadsChild(Node(t.keys, t.kids[i := c]), s, i);
    }
  }

  /** A node whose child changed. */
  lemma {:induction false} RecDeleteOfNode(t: Tree, k: Key, v: Value)
    requires Shaped(t) && t.Node?
    ensures var i := WriteIndex(AsWritten, t.keys, k);
            var c := RecDelete(AsWritten, t.kids[i], k, v);
            var n := Node(t.keys, t.kids[i := c]);
            && Repairable(n)
            && (c != t.kids[i] ==>
                  RecDelete(AsWritten, t, k, v) ==
                  if |c.keys| < MIN_KEYS then HandleUnderflow(AsWritten, n, i) else n)
  {
    var i := WriteIndex(AsWritten, t.keys, k);
    KidRepairable(AsWritten, t, i, RecDelete(AsWritten, t.kids[i], k, v));
  }

  /** Deleting from a leaf that is left too small repairs it, and spoils the separator beside it. */
  lemma {:induction false} RepairedLeafIs(t: Tree, k: Key, v: Value)
    requires Shaped(t) && t.Node? && Underflows(AsWritten, t, k, v)
    requires var kid := t.kids[WriteIndex(AsWritten, t.keys, k)]; kid.Leaf? && Shaped(kid) && |kid.keys| >= MIN_KEYS
    ensures var i := WriteIndex(AsWritten, t.keys, k);
            var c := LeafDelete(t.kids[i], k, v);
            var n := Node(t.keys, t.kids[i := c]);
            && |c.keys| < MIN_KEYS && Repairable(n)
            && RecDelete(AsWritten, t, k, v) == HandleUnderflow(AsWritten, n, i)
            && WrongSep(t, k, v) == t.keys[RepairSep(n, i)]
  {
    var kid := t.kids[WriteIndex(AsWritten, t.keys, k)];
    assert ReachedLeaf(AsWritten, t, k) == ReachedLeaf(AsWritten, kid, k) == kid;
    assert RecDelete(AsWritten, kid, k, v) == LeafDelete(kid, k, v);
    RecDeleteOfNode(t, k, v);
  }

  lemma {:induction false} RepairedLeafFinds(t: Tree, k: Key, v: Value, h: nat, lo: real, hi: real, least: nat)
    requires WF(AsWritten, t, h, lo, hi, least) && Within(AsWritten, k, lo, hi) && Shaped(t) && t.Node?
    requires Underflows(AsWritten, t, k, v) && t.kids[WriteIndex(AsWritten, t.keys, k)].Leaf?
    ensures NodeKeysOk(RecDelete(AsWritten, t, k, v), lo, hi)
    ensures Finds(RecDelete(AsWritten, t, k, v), WrongSep(t, k, v))
  {
    var i := WriteIndex(AsWritten, t.keys, k);
    WriteIndexWithin(AsWritten, t.keys, k, lo, hi);
    var kid, lo', hi' := t.kids[i], LowAt(t.keys, lo, i), HighAt(t.keys, hi, i);
    assert KidsOk(AsWritten, t.keys, t.kids, h - 1, lo, hi);
    assert WF(AsWritten, kid, h - 1, lo', hi', MIN_KEYS);
    RepairedLeafIs(t, k, v);
    LeafDeleteOk(AsWritten, kid, k, v, lo', hi');
    LeafRepairFinds(t.keys, t.kids, i, LeafDelete(kid, k, v), lo, hi);
  }

  lemma {:induction false} RepairedLeafAnswersWrong(t: Tree, k: Key, v: Value, h: nat, lo: real, hi: real, least: nat)
    requires WF(AsWritten, t, h, lo, hi, least) && Within(AsWritten, k, lo, hi) && Shaped(t) && t.Node?
    requires Underflows(AsWritten, t, k, v)
    ensures NodeKeysOk(RecDelete(AsWritten, t, k, v), lo, hi)
    ensures Finds(RecDelete(AsWritten, t, k, v), WrongSep(t, k, v))
    decreases t
  {
    var i := WriteIndex(AsWritten, t.keys, k);
    var kid := t.kids[i];
    if kid.Leaf? {
      RepairedLeafFinds(t, k, v, h, lo, hi, least);
    } else {
      WriteIndexWithin(AsWritten, t.keys, k, lo, hi);
      var lo', hi', c := LowAt(t.keys, lo, i), HighAt(t.keys, hi, i), RecDelete(AsWritten, kid, k, v);
      assert WF(AsWritten, kid, h - 1, lo', hi', MIN_KEYS);
      RepairedLeafAnswersWrong(kid, k, v, h - 1, lo', hi', MIN_KEYS);
      var s := WrongSep(kid, k, v);
      WrongSepIsSep(kid, k, v, h - 1, lo', hi', MIN_KEYS);
      GetReadsVals(AsWritten, kid, s, h - 1, lo', hi', MIN_KEYS);
      assert c != kid;
      RecDeleteOfNode(t, k, v);
      WrongAnswerRises(t, i, c, s, h, lo, hi, least);
    }
  }
}
