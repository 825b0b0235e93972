/**
 Delete as it runs on the store: the recursion, and the repairs that load a child and its
 neighbour, move keys, values or children between them, and save both.
 */
module StoreDelete {
  import opened Keys
  import opened Options
  import opened ProllyTree
  import opened ProllyTreeShape
  import opened Store
  import Seqs

  /** A node in memory whose children are stored. */
  ghost predicate Ready(log: seq<NodeRec>, n: NodeRec) {
    LogOk(log) && Canonical(n) && Below(n.children, |log|)
  }

  /** An inner node in memory and one of its children, loaded. */
  ghost predicate Loaded(log: seq<NodeRec>, parent: NodeRec, i: nat, n: NodeRec) {
    && Ready(log, parent) && !parent.isLeaf && i < |parent.children| && n == log[parent.children[i]]
    && Ready(log, n) && Denoted(log, parent).kids[i] == Denoted(log, n)
  }

  lemma {:induction false} LoadedChild(log: seq<NodeRec>, parent: NodeRec, i: nat)
    requires Ready(log, parent) && !parent.isLeaf && i < |parent.children|
    ensures Loaded(log, parent, i, log[parent.children[i]])
  {
    DenotesStored(log, parent.children[i]);
  }

  /** Two neighbours saved under new CIDs, with a new separator. */
  method SavePair(sh: Shell, parent: NodeRec, i: nat, left: NodeRec, sep: Key, right: NodeRec) returns (r: NodeRec)
    requires Ready(sh.log, parent) && !parent.isLeaf && |parent.children| == |parent.keys| + 1 && i < |parent.keys|
    requires Ready(sh.log, left) && Ready(sh.log, right)
    modifies sh
    ensures Extends(old(sh.log), sh.log) && Ready(sh.log, r) && !r.isLeaf
    ensures Denoted(sh.log, r) == ReplacePair(Denoted(old(sh.log), parent), i,
                                              (Denoted(old(sh.log), left), sep, Denoted(old(sh.log), right)))
  {
    ghost var before := sh.log;
    var leftCid, rightCid := AddBoth(sh, left, right);
    ForestPersists(before, sh.log, parent.children);
    r := parent.(keys := parent.keys[i := sep], children := parent.children[i := leftCid][i + 1 := rightCid]);
    ForestUpdate(sh.log, parent.children, i, leftCid);
    ForestUpdate(sh.log, parent.children[i := leftCid], i + 1, rightCid);
  }

  /** Two neighbours saved as one, and their separator removed. */
  method SaveMerged(sh: Shell, parent: NodeRec, i: nat, merged: NodeRec) returns (r: NodeRec)
    requires Ready(sh.log, parent) && !parent.isLeaf && |parent.children| == |parent.keys| + 1 && i < |parent.keys|
    requires Ready(sh.log, merged)
    modifies sh
    ensures Extends(old(sh.log), sh.log) && Ready(sh.log, r) && !r.isLeaf
    ensures Denoted(sh.log, r) == ReplaceMerged(Denoted(old(sh.log), parent), i, Denoted(old(sh.log), merged))
  {
    ghost var before := sh.log;
    var children := parent.children[..i + 1] + parent.children[i + 2..];
    var cid := sh.Add(merged);
    ForestPersists(before, sh.log, parent.children);
    MergedForest(sh.log, parent.children, i, cid);
    r := parent.(keys := RemoveAt(parent.keys, i), children := children[i := cid]);
  }

  lemma {:induction false} MergedForest(log: seq<NodeRec>, cs: seq<Cid>, i: nat, m: Cid)
    requires LogOk(log) && Below(cs, |log|) && i + 1 < |cs| && m < |log|
    ensures var ds := (cs[..i + 1] + cs[i + 2..])[i := m];
      var kids := Forest(log, cs, |log|);
      Below(ds, |log|) && Forest(log, ds, |log|) == kids[..i] + [TreeAt(log, m)] + kids[i + 2..]
  {
    ForestDrop(log, cs, i + 1);
    var was := Forest(log, cs, |log|);
    var dropped := was[..i + 1] + was[i + 2..];
    ForestUpdate(log, cs[..i + 1] + cs[i + 2..], i, m);
    Seqs.Update(dropped, i, TreeAt(log, m));
    assert dropped[..i] == was[..i] && dropped[i + 1..] == was[i + 2..];
  }

  /** Child `i` dropped. */
  lemma {:induction false} ForestDrop(log: seq<NodeRec>, cs: seq<Cid>, i: nat)
    requires LogOk(log) && Below(cs, |log|) && i < |cs|
    ensures var ds := cs[..i] + cs[i + 1..];
      Below(ds, |log|) && Forest(log, ds, |log|) == Forest(log, cs, |log|)[..i] + Forest(log, cs, |log|)[i + 1..]
  {
    ForestCut(log, cs, i);
    ForestCut(log, cs, i + 1);
    ForestJoin(log, cs[..i], cs[i + 1..]);
  }

  /** A parent with loaded neighbours `i` and `i + 1`, both of one kind and in shape. */
  ghost predicate Neighbours(log: seq<NodeRec>, parent: NodeRec, i: nat, left: NodeRec, right: NodeRec) {
    && Ready(log, parent) && !parent.isLeaf && |parent.children| == |parent.keys| + 1 && i < |parent.keys|
    && Loaded(log, parent, i, left) && Loaded(log, parent, i + 1, right)
    && left.isLeaf == right.isLeaf && LocalShape(Denoted(log, left)) && LocalShape(Denoted(log, right))
  }

  /** Inner nodes after a borrow from the left. */
  lemma {:induction false} BorrowLeftNodes(log: seq<NodeRec>, s: Key, l: NodeRec, c: NodeRec)
    requires Ready(log, l) && Ready(log, c) && !l.isLeaf && !c.isLeaf && |l.keys| >= 1 && |l.children| == |l.keys| + 1
    ensures var n := |l.keys| - 1;
            var l' := l.(keys := l.keys[..n], children := l.children[..n + 1]);
            var c' := c.(keys := [s] + c.keys, children := [l.children[n + 1]] + c.children);
            && Ready(log, l') && Ready(log, c')
            && Denoted(log, l') == Node(l.keys[..n], Denoted(log, l).kids[..n + 1])
            && Denoted(log, c') == Node([s] + c.keys, [Denoted(log, l).kids[n + 1]] + Denoted(log, c).kids)
  {
    var n := |l.keys| - 1;
    ForestCut(log, l.children, n + 1);
    ForestJoin(log, [l.children[n + 1]], c.children);
    assert Forest(log, [l.children[n + 1]], |log|) == [Denoted(log, l).kids[n + 1]];
  }

  method BorrowFromLeft(
    sh: Shell, rule: Rule, parent: NodeRec, childIdx: nat, leftSibling: NodeRec) returns (r: NodeRec)
    requires Ready(sh.log, parent) && !parent.isLeaf && 0 < childIdx < |parent.children|
    requires Neighbours(sh.log, parent, childIdx - 1, leftSibling, sh.log[parent.children[childIdx]])
    requires |leftSibling.keys| >= 1
    modifies sh
    ensures Extends(old(sh.log), sh.log) && Ready(sh.log, r) && !r.isLeaf
    ensures var t := Denoted(old(sh.log), parent);
      Denoted(sh.log, r) == ReplacePair(t, childIdx - 1,
                                        BorrowLeft(rule, t.kids[childIdx - 1], t.keys[childIdx - 1], t.kids[childIdx]))
  {
    var loaded := sh.Cat(parent.children[childIdx]);
    var child, left, n := loaded.value, leftSibling, |leftSibling.keys| - 1;
    var sep := left.keys[n];
    if child.isLeaf {
      var moved := if rule.AsWritten? then parent.keys[childIdx - 1] else sep;
      child := child.(keys := [moved] + child.keys, values := [left.values[n]] + child.values);
      left := left.(keys := left.keys[..n], values := left.values[..n]);
    } else {
      BorrowLeftNodes(sh.log, parent.keys[childIdx - 1], left, child);
      child := child.(keys := [parent.keys[childIdx - 1]] + child.keys,
                      children := [left.children[n + 1]] + child.children);
      left := left.(keys := left.keys[..n], children := left.children[..n + 1]);
    }
    r := SavePair(sh, parent, childIdx - 1, left, sep, child);
  }

  /** Inner nodes after a borrow from the right. */
  lemma {:induction false} BorrowRightNodes(log: seq<NodeRec>, c: NodeRec, s: Key, r: NodeRec)
    requires Ready(log, c) && Ready(log, r) && !c.isLeaf && !r.isLeaf && |r.keys| >= 1 && |r.children| == |r.keys| + 1
    ensures var c' := c.(keys := c.keys + [s], children := c.children + [r.children[0]]);
            var r' := r.(keys := r.keys[1..], children := r.children[1..]);
            && Ready(log, c') && Ready(log, r')
            && Denoted(log, c') == Node(c.keys + [s], Denoted(log, c).kids + [Denoted(log, r).kids[0]])
            && Denoted(log, r') == Node(r.keys[1..], Denoted(log, r).kids[1..])
  {
    ForestCut(log, r.children, 1);
    ForestJoin(log, c.children, [r.children[0]]);
    assert Forest(log, [r.children[0]], |log|) == [Denoted(log, r).kids[0]];
  }

  method BorrowFromRight(
    sh: Shell, rule: Rule, parent: NodeRec, childIdx: nat, rightSibling: NodeRec) returns (r: NodeRec)
    requires Ready(sh.log, parent) && !parent.isLeaf && childIdx < |parent.children|
    requires Neighbours(sh.log, parent, childIdx, sh.log[parent.children[childIdx]], rightSibling)
    requires |rightSibling.keys| >= 2
    modifies sh
    ensures Extends(old(sh.log), sh.log) && Ready(sh.log, r) && !r.isLeaf
    ensures var t := Denoted(old(sh.log), parent);
      Denoted(sh.log, r) == ReplacePair(t, childIdx,
                                        BorrowRight(rule, t.kids[childIdx], t.keys[childIdx], t.kids[childIdx + 1]))
  {
    var loaded := sh.Cat(parent.children[childIdx]);
    var child, right := loaded.value, rightSibling;
    var sep := right.keys[0];
    if child.isLeaf {
      var moved := if rule.AsWritten? then parent.keys[childIdx] else right.keys[0];
      if rule.Intended? { sep := right.keys[1]; }
      child := child.(keys := child.keys + [moved], values := child.values + [right.values[0]]);
      right := right.(keys := right.keys[1..], values := right.values[1..]);
    } else {
      BorrowRightNodes(sh.log, child, parent.keys[childIdx], right);
      child := child.(keys := child.keys + [parent.keys[childIdx]], children := child.children + [right.children[0]]);
      right := right.(keys := right.keys[1..], children := right.children[1..]);
    }
    r := SavePair(sh, parent, childIdx, child, sep, right);
  }

  /** Both merges: the neighbours `i` and `i + 1` become one node in the place of the first. */
  method MergeNeighbours(sh: Shell, rule: Rule, parent: NodeRec, i: nat) returns (r: NodeRec)
    requires Ready(sh.log, parent) && !parent.isLeaf && i + 1 < |parent.children|
    requires Neighbours(sh.log, parent, i, sh.log[parent.children[i]], sh.log[parent.children[i + 1]])
    modifies sh
    ensures Extends(old(sh.log), sh.log) && Ready(sh.log, r) && !r.isLeaf
    ensures var t := Denoted(old(sh.log), parent);
      Denoted(sh.log, r) == ReplaceMerged(t, i, Merge(rule, t.kids[i], t.keys[i], t.kids[i + 1]))
  {
    var l := sh.Cat(parent.children[i]);
    var c := sh.Cat(parent.children[i + 1]);
    var left, right := l.value, c.value;
    if left.isLeaf {
      var pulled := if rule.AsWritten? then [parent.keys[i]] else [];
      left := left.(keys := left.keys + pulled + right.keys, values := left.values + right.values);
    } else {
      ForestJoin(sh.log, left.children, right.children);
      left := left.(keys := left.keys + [parent.keys[i]] + right.keys, children := left.children + right.children);
    }
    r := SaveMerged(sh, parent, i, left);
  }

  lemma {:induction false} NeighboursOf(log: seq<NodeRec>, parent: NodeRec, i: nat)
    requires Ready(log, parent) && !parent.isLeaf && Repairable(Denoted(log, parent)) && i < |parent.keys|
    ensures i + 1 < |parent.children|
    ensures Neighbours(log, parent, i, log[parent.children[i]], log[parent.children[i + 1]])
    ensures Denoted(log, parent).kids[i].keys == log[parent.children[i]].keys
    ensures Denoted(log, parent).kids[i + 1].keys == log[parent.children[i + 1]].keys
  {
    KidsAlike(Denoted(log, parent), i);
    LoadedChild(log, parent, i);
    LoadedChild(log, parent, i + 1);
  }

  lemma {:induction false} KidsAlike(t: Tree, i: nat)
    requires Repairable(t) && i < |t.keys|
    ensures i + 1 < |t.kids| && (t.kids[i].Leaf? <==> t.kids[i + 1].Leaf?)
  {
    assert t.kids[i].Leaf? <==> t.kids[0].Leaf?;
    assert t.kids[i + 1].Leaf? <==> t.kids[0].Leaf?;
  }

  /** Which neighbour a repair uses. */
  lemma {:induction false} RepairIs(rule: Rule, t: Tree, i: nat)
    requires Repairable(t) && i < |t.kids|
    ensures HandleUnderflow(rule, t, i) ==
      if i > 0 && |t.kids[i - 1].keys| > MIN_KEYS then
        ReplacePair(t, i - 1, BorrowLeft(rule, t.kids[i - 1], t.keys[i - 1], t.kids[i]))
      else if i < |t.keys| && |t.kids[i + 1].keys| > MIN_KEYS then
        ReplacePair(t, i, BorrowRight(rule, t.kids[i], t.keys[i], t.kids[i + 1]))
      else
        var m := if i > 0 then i - 1 else i;
        ReplaceMerged(t, m, Merge(rule, t.kids[m], t.keys[m], t.kids[m + 1]))
  {
  }

  method RepairChild(sh: Shell, rule: Rule, parent: NodeRec, childIdx: nat) returns (r: NodeRec)
    requires Ready(sh.log, parent) && !parent.isLeaf && childIdx < |parent.children|
    requires Repairable(Denoted(sh.log, parent))
    modifies sh
    ensures Extends(old(sh.log), sh.log) && Ready(sh.log, r) && !r.isLeaf
    ensures Denoted(sh.log, r) == HandleUnderflow(rule, Denoted(old(sh.log), parent), childIdx)
  {
    RepairIs(rule, Denoted(sh.log, parent), childIdx);
    if childIdx > 0 {
      NeighboursOf(sh.log, parent, childIdx - 1);
      var left := sh.Cat(parent.children[childIdx - 1]);
      if |left.value.keys| > MIN_KEYS {
        r := BorrowFromLeft(sh, rule, parent, childIdx, left.value);
        return;
      }
    }
    if childIdx < |parent.keys| {
      NeighboursOf(sh.log, parent, childIdx);
      var right := sh.Cat(parent.children[childIdx + 1]);
      if |right.value.keys| > MIN_KEYS {
        r := BorrowFromRight(sh, rule, parent, childIdx, right.value);
        return;
      }
    }
    r := MergeNeighbours(sh, rule, parent, if childIdx > 0 then childIdx - 1 else childIdx);
  }

  /** The values of a key without the one deleted. */
  method Filter(values: seq<Value>, value: Value) returns (newValues: seq<Value>)
    ensures newValues == Without(values, value)
  {
    newValues := [];
    for j := 0 to |values|
      invariant newValues + Without(values[j..], value) == Without(values, value)
    {
      Seqs.Uncons(values, j);
      ghost var rest := Without(values[j + 1..], value);
      assert values[j..][1..] == values[j + 1..];
      if values[j] != value {
        Seqs.Assoc(newValues, [values[j]], rest);
        newValues := newValues + [values[j]];
      } else {
        Seqs.Empty(rest);
      }
    }
    assert values[|values|..] == [];
    Seqs.Empty(newValues);
  }

  /** The leaf branch of RecursiveDelete: the leaf without the value, or nothing if the key is not there. */
  method DeleteInLeaf(leaf: NodeRec, key: Key, value: Value) returns (r: Option<NodeRec>)
    requires leaf.isLeaf && Canonical(leaf) && |leaf.values| == |leaf.keys|
    ensures r.None? ==> LeafDelete(Leaf(leaf.keys, leaf.values), key, value) == Leaf(leaf.keys, leaf.values)
    ensures r.Some? ==> r.value.isLeaf && Canonical(r.value)
    ensures r.Some? ==> Leaf(r.value.keys, r.value.values) == LeafDelete(Leaf(leaf.keys, leaf.values), key, value)
  {
    var i := Search(leaf.keys, key);
    if i >= |leaf.keys| || leaf.keys[i] != key { return None; }
    var newValues := Filter(leaf.values[i], value);
    if |newValues| == 0 {
      r := Some(leaf.(keys := RemoveAt(leaf.keys, i), values := RemoveAt(leaf.values, i)));
    } else {
      r := Some(leaf.(values := leaf.values[i := newValues]));
    }
  }

  method RecursiveDelete(sh: Shell, rule: Rule, cid: Cid, key: Key, value: Value) returns (r: Option<Cid>)
    requires sh.Valid()
    requires cid < |sh.log| ==> Shaped(TreeAt(sh.log, cid))
    modifies sh
    ensures Extends(old(sh.log), sh.log) && (r.Some? <==> cid < |old(sh.log)|)
    ensures r.Some? ==>
      r.value < |sh.log| && TreeAt(sh.log, r.value) == RecDelete(rule, TreeAt(old(sh.log), cid), key, value)
    decreases cid, 1
  {
    var n := sh.Cat(cid);
    if n.None? { return None; }
    var node := n.value;
    ghost var t := TreeAt(sh.log, cid);
    DenotesStored(sh.log, cid);
    if node.isLeaf {
      var left := DeleteInLeaf(node, key, value);
      if left.None? { return Some(cid); }
      var newCid := sh.Add(left.value);
      return Some(newCid);
    }
    var i := WriteIndex(rule, node.keys, key);
    assert Shaped(t.kids[i]) && t.kids[i] == TreeAt(sh.log, node.children[i]);
    var newCid := DeleteBelow(sh, rule, cid, node, i, key, value, t);
    r := Some(newCid);
  }

  /** The inner-node branch: Delete below child `i`; the same child CID means nothing changed. */
  method DeleteBelow(
    sh: Shell, rule: Rule, cid: Cid, inner: NodeRec, i: nat, key: Key, value: Value, ghost t: Tree)
    returns (newCid: Cid)
    requires sh.Valid() && cid < |sh.log| && inner == sh.log[cid] && !inner.isLeaf && Below(inner.children, cid)
    requires i < |inner.children| && t == TreeAt(sh.log, cid) == Denoted(sh.log, inner) && Shaped(t)
    requires i == WriteIndex(rule, inner.keys, key) && t.kids[i] == TreeAt(sh.log, inner.children[i])
    modifies sh
    ensures Extends(old(sh.log), sh.log) && newCid < |sh.log|
    ensures TreeAt(sh.log, newCid) == RecDelete(rule, t, key, value)
    decreases cid, 0
  {
    ghost var before := sh.log;
    DeletesBelow(rule, t, key, value);
    var child := RecursiveDelete(sh, rule, inner.children[i], key, value);
    var childCid := child.value;
    ghost var c := RecDelete(rule, t.kids[i], key, value);
    ChildReplaced(before, sh.log, cid, inner, i, childCid, c);
    if childCid == inner.children[i] { return cid; }
    newCid := SaveRepaired(sh, rule, inner.(children := inner.children[i := childCid]), i,
                           Node(t.keys, t.kids[i := c]));
  }

  /** What Delete below a child makes of the node. */
  lemma {:induction false} DeletesBelow(rule: Rule, t: Tree, key: Key, value: Value)
    requires Shaped(t) && t.Node?
    ensures var i := WriteIndex(rule, t.keys, key);
      Shaped(t.kids[i]) &&
      var c := RecDelete(rule, t.kids[i], key, value);
      var n := Node(t.keys, t.kids[i := c]);
      && (c == t.kids[i] ==> RecDelete(rule, t, key, value) == t)
      && (c != t.kids[i] ==>
            && Repairable(n) && n.kids[i] == c
            && RecDelete(rule, t, key, value) == if |c.keys| < MIN_KEYS then HandleUnderflow(rule, n, i) else n)
  {
    var i := WriteIndex(rule, t.keys, key);
    assert Shaped(t.kids[i]);
    KidRepairable(rule, t, i, RecDelete(rule, t.kids[i], key, value));
  }

  /** A node with a child's new CID in place; the CID is the old one exactly when the child did not change. */
  lemma {:induction false} ChildReplaced(
    before: seq<NodeRec>, now: seq<NodeRec>, cid: Cid, inner: NodeRec, i: nat, childCid: Cid, c: Tree)
    requires Extends(before, now) && cid < |before| && inner == before[cid] && !inner.isLeaf
    requires i < |inner.children| && childCid < |now| && TreeAt(now, childCid) == c
    ensures Below(inner.children, |before|) && TreeAt(now, cid) == TreeAt(before, cid)
    ensures childCid == inner.children[i] <==> c == TreeAt(before, inner.children[i])
    ensures var node := inner.(children := inner.children[i := childCid]); var t := Denoted(before, inner);
            Ready(now, node) && Denoted(now, node) == Node(t.keys, t.kids[i := c])
  {
    assert Below(inner.children, cid);
    TreesArePersistent(before, now, cid);
    TreesArePersistent(before, now, inner.children[i]);
    if c == TreeAt(before, inner.children[i]) { OneCidPerTree(now, childCid, inner.children[i]); }
    ForestPersists(before, now, inner.children);
    ForestUpdate(now, inner.children, i, childCid);
  }

  /** Saves an inner node whose child `i` is new, after repairing the child if it is short. */
  method SaveRepaired(sh: Shell, rule: Rule, inner: NodeRec, i: nat, ghost n: Tree) returns (newCid: Cid)
    requires Ready(sh.log, inner) && !inner.isLeaf && i < |inner.children| && n == Denoted(sh.log, inner)
    requires Repairable(n)
    modifies sh
    ensures Extends(old(sh.log), sh.log) && newCid < |sh.log|
    ensures TreeAt(sh.log, newCid) == if |n.kids[i].keys| < MIN_KEYS then HandleUnderflow(rule, n, i) else n
  {
    var node := inner;
    LoadedChild(sh.log, node, i);
    var loaded := sh.Cat(node.children[i]);
    if |loaded.value.keys| < MIN_KEYS {
      node := RepairChild(sh, rule, node, i);
    }
    newCid := sh.Add(node);
  }

  /** Delete: the CID of the new root. A value that is not there leaves the root CID as it was. */
  method DeleteValue(sh: Shell, rule: Rule, root: Cid, key: Key, value: Value) returns (r: Option<Cid>)
    requires sh.Valid()
    requires root < |sh.log| ==> Shaped(TreeAt(sh.log, root))
    modifies sh
    ensures Extends(old(sh.log), sh.log) && (r.Some? <==> root < |old(sh.log)|)
    ensures r.Some? ==>
      r.value < |sh.log| && TreeAt(sh.log, r.value) == Delete(rule, TreeAt(old(sh.log), root), key, value)
    ensures r.Some? && Delete(rule, TreeAt(old(sh.log), root), key, value) == TreeAt(old(sh.log), root) ==>
      r == Some(root)
  {
    ghost var before := sh.log;
    var d := RecursiveDelete(sh, rule, root, key, value);
    if d.None? { return None; }
    var newRoot := d.value;
    DenotesStored(sh.log, newRoot);
    var loaded := sh.Cat(newRoot);
    if !loaded.value.isLeaf && |loaded.value.keys| == 0 && |loaded.value.children| > 0 {
      newRoot := loaded.value.children[0];
    }
    TreesArePersistent(before, sh.log, root);
    if TreeAt(sh.log, newRoot) == TreeAt(sh.log, root) { OneCidPerTree(sh.log, newRoot, root); }
    r := Some(newRoot);
  }
}
