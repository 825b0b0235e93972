/**
 The content-addressed store, and the tree code as it runs on it: a node is loaded by its
 CID, changed, and saved under a new CID. Each method is proved to compute the function of
 Tree.dfy on the tree its root CID denotes.

 The store is the list of the distinct objects ever added; a CID is a position in it, so
 equal content has one CID. Adding only appends. A node can name only children that were
 added before it, which is why following children ends.
 */
module Store {
  import opened Keys
  import opened Options
  import opened ProllyTree
  import opened ProllyTreeShape
  import Seqs

  type Cid = nat

  /** A stored node. Leaves have no children and inner nodes no values. */
  datatype NodeRec = NodeRec(isLeaf: bool, keys: seq<Key>, values: seq<seq<Value>>, children: seq<Cid>)

  predicate Canonical(n: NodeRec) {
    if n.isLeaf then n.children == [] else n.values == []
  }

  predicate Below(children: seq<Cid>, bound: nat) {
    forall i :: 0 <= i < |children| ==> children[i] < bound
  }

  predicate LogOk(log: seq<NodeRec>) {
    && (forall c :: 0 <= c < |log| ==> Canonical(log[c]) && Below(log[c].children, c))
    && (forall c, d :: 0 <= c < d < |log| ==> log[c] != log[d])
  }

  /** The tree a CID denotes; following children goes to smaller CIDs. */
  ghost function TreeAt(log: seq<NodeRec>, cid: Cid): Tree
    requires LogOk(log) && cid < |log|
    decreases cid, 1, 0
  {
    var n := log[cid];
    if n.isLeaf then Leaf(n.keys, n.values) else Node(n.keys, Forest(log, n.children, cid))
  }

  ghost function Forest(log: seq<NodeRec>, children: seq<Cid>, bound: nat): (kids: seq<Tree>)
    requires LogOk(log) && Below(children, bound) && bound <= |log|
    ensures |kids| == |children|
    ensures forall i :: 0 <= i < |children| ==> kids[i] == TreeAt(log, children[i])
    decreases bound, 0, |children|
  {
    if children == [] then [] else [TreeAt(log, children[0])] + Forest(log, children[1..], bound)
  }

  /** The tree a node denotes before it is saved. */
  ghost function Denoted(log: seq<NodeRec>, n: NodeRec): Tree
    requires LogOk(log) && Below(n.children, |log|)
  {
    if n.isLeaf then Leaf(n.keys, n.values) else Node(n.keys, Forest(log, n.children, |log|))
  }

  /** `now` holds everything `before` did, under the same CIDs. */
  predicate Extends(before: seq<NodeRec>, now: seq<NodeRec>) {
    LogOk(before) && LogOk(now) && |before| <= |now| && now[..|before|] == before
  }

  // ------------------------------------------------------- persistence

  /** A later store denotes the same tree by an old CID: no Put or Delete changes an earlier version. */
  lemma {:induction false} TreesArePersistent(before: seq<NodeRec>, now: seq<NodeRec>, cid: Cid)
    requires Extends(before, now) && cid < |before|
    ensures TreeAt(now, cid) == TreeAt(before, cid)
    decreases cid
  {
    var n := before[cid];
    assert now[cid] == now[..|before|][cid];
    if !n.isLeaf {
      forall i | 0 <= i < |n.children| ensures TreeAt(now, n.children[i]) == TreeAt(before, n.children[i]) {
        TreesArePersistent(before, now, n.children[i]);
      }
      assert Forest(now, n.children, cid) == Forest(before, n.children, cid);
    }
  }

  lemma {:induction false} ForestSlice(log: seq<NodeRec>, children: seq<Cid>, a: nat, b: nat)
    requires LogOk(log) && Below(children, |log|) && a <= b <= |children|
    ensures Forest(log, children[a..b], |log|) == Forest(log, children, |log|)[a..b]
  {
  }

  lemma {:induction false} ForestCut(log: seq<NodeRec>, cs: seq<Cid>, i: nat)
    requires LogOk(log) && Below(cs, |log|) && i <= |cs|
    ensures Forest(log, cs[..i], |log|) == Forest(log, cs, |log|)[..i]
    ensures Forest(log, cs[i..], |log|) == Forest(log, cs, |log|)[i..]
  {
    ForestSlice(log, cs, 0, i);
    ForestSlice(log, cs, i, |cs|);
    Seqs.Whole(cs, i);
    Seqs.Whole(Forest(log, cs, |log|), i);
  }

  lemma {:induction false} ForestJoin(log: seq<NodeRec>, a: seq<Cid>, b: seq<Cid>)
    requires LogOk(log) && Below(a, |log|) && Below(b, |log|)
    ensures Below(a + b, |log|) && Forest(log, a + b, |log|) == Forest(log, a, |log|) + Forest(log, b, |log|)
  {
    var was, now := Forest(log, a, |log|) + Forest(log, b, |log|), Forest(log, a + b, |log|);
    forall j | 0 <= j < |now| ensures now[j] == was[j] {
      assert now[j] == TreeAt(log, (a + b)[j]);
    }
  }

  lemma {:induction false} ForestPersists(before: seq<NodeRec>, now: seq<NodeRec>, children: seq<Cid>)
    requires Extends(before, now) && Below(children, |before|)
    ensures Forest(now, children, |now|) == Forest(before, children, |before|)
  {
    forall i | 0 <= i < |children| ensures TreeAt(now, children[i]) == TreeAt(before, children[i]) {
      TreesArePersistent(before, now, children[i]);
    }
  }

  /** One tree has one root CID. */
  lemma {:induction false} OneCidPerTree(log: seq<NodeRec>, c: Cid, d: Cid)
    requires LogOk(log) && c < |log| && d < |log| && TreeAt(log, c) == TreeAt(log, d)
    ensures c == d
    decreases c
  {
    var m, n := log[c], log[d];
    if !m.isLeaf {
      forall i | 0 <= i < |m.children| ensures m.children[i] == n.children[i] {
        assert TreeAt(log, m.children[i]) == Forest(log, m.children, c)[i] == Forest(log, n.children, d)[i];
        OneCidPerTree(log, m.children[i], n.children[i]);
      }
      assert m.children == n.children;
    }
    assert m == n;
  }

  lemma {:induction false} DenotesStored(log: seq<NodeRec>, cid: Cid)
    requires LogOk(log) && cid < |log|
    ensures var n := log[cid];
      && Below(n.children, cid) && Below(n.children, |log|) && Denoted(log, n) == TreeAt(log, cid)
      && (!n.isLeaf ==> forall i :: 0 <= i < |n.children| ==> TreeAt(log, cid).kids[i] == TreeAt(log, n.children[i]))
  {
    var n := log[cid];
    assert Below(n.children, cid);
    if !n.isLeaf { assert Forest(log, n.children, cid) == Forest(log, n.children, |log|); }
  }

  // ---------------------------------------------------------- the store

  class Shell {
    var log: seq<NodeRec>

    predicate Valid() reads this { LogOk(log) }

    constructor ()
      ensures Valid() && log == []
    {
      log := [];
    }

    /** Saves a node: the CID of equal content if there is one, else a new CID. */
    method Add(n: NodeRec) returns (cid: Cid)
      requires Valid() && Canonical(n) && Below(n.children, |log|)
      modifies this
      ensures Extends(old(log), log) && cid < |log| && log[cid] == n
      ensures n in old(log) ==> log == old(log)
      ensures Below(n.children, |log|) && TreeAt(log, cid) == Denoted(old(log), n) == Denoted(log, n)
    {
      cid := 0;
      while cid < |log| && log[cid] != n
        invariant cid <= |log| && log == old(log)
        invariant forall c :: 0 <= c < cid ==> log[c] != n
      {
        cid := cid + 1;
      }
      if cid == |log| {
        log := log + [n];
        assert log[..|old(log)|] == old(log);
      }
      ForestPersists(old(log), log, n.children);
      assert Below(log[cid].children, cid);
      if !n.isLeaf { assert Forest(log, n.children, cid) == Forest(log, n.children, |log|); }
    }

    /** Loads a node; a CID that was never added is an error. */
    method Cat(cid: Cid) returns (n: Option<NodeRec>)
      ensures n == if cid < |log| then Some(log[cid]) else None
    {
      if cid < |log| { n := Some(log[cid]); } else { n := None; }
    }
  }

  // ---------------------------------------------------------------- Get

  method RecursiveGet(sh: Shell, cid: Cid, key: Key) returns (r: Option<Lookup>)
    requires sh.Valid()
    ensures r == if cid < |sh.log| then Some(Get(TreeAt(sh.log, cid), key)) else None
    decreases cid
  {
    var n := sh.Cat(cid);
    if n.None? { return None; }
    var node := n.value;
    var i := Search(node.keys, key);
    if node.isLeaf {
      if i < |node.keys| && node.keys[i] == key {
        if i >= |node.values| { return Some(Panic); }
        return Some(Found(node.values[i]));
      }
      return Some(Found([]));
    }
    if i < |node.keys| && node.keys[i] == key { i := i + 1; }
    if i >= |node.children| { return Some(Panic); }
    assert node.children[i] < cid;
    r := RecursiveGet(sh, node.children[i], key);
  }

  /** A tree that was never given a root answers nothing. */
  method GetValues(sh: Shell, root: Option<Cid>, key: Key) returns (r: Option<Lookup>)
    requires sh.Valid()
    ensures root.None? ==> r == Some(Found([]))
    ensures root.Some? ==> r == if root.value < |sh.log| then Some(Get(TreeAt(sh.log, root.value), key)) else None
  {
    if root.None? { return Some(Found([])); }
    r := RecursiveGet(sh, root.value, key);
  }

  // ---------------------------------------------------------------- Put

  /** The code tells a split from none by the promoted key not being the empty string. */
  function Seen(r: PutResult): PutResult {
    if r.Split? && r.sep == EMPTY_KEY then PutResult.Done(r.left) else r
  }

  /** The recursive Put as its callers see it. */
  function PutSeen(rule: Rule, t: Tree, k: Key, v: Value): PutResult
    requires Shaped(t)
  {
    if t.Leaf? then Seen(LeafSplit(rule, LeafPut(t, k, v)))
    else
      var i := WriteIndex(rule, t.keys, k);
      Seen(NodeSplit(Replace(t, i, PutSeen(rule, t.kids[i], k, v))))
  }

  /** A promoted key has smaller keys to its left, so it is not the empty string. */
  lemma {:induction false} PromotedIsNotEmpty(rule: Rule, r: PutResult, h: nat, lo: real, hi: real, least: nat)
    requires PutOk(rule, r, h, lo, hi, least) && r.Split?
    ensures r.sep > EMPTY_KEY
  {
    assert r.left.keys[0] < r.left.keys[1];
  }

  /** In a well-formed tree no split is overlooked. */
  lemma {:induction false} SeenIsPut(rule: Rule, t: Tree, k: Key, v: Value, h: nat, lo: real, hi: real, least: nat)
    requires WF(rule, t, h, lo, hi, least) && Within(rule, k, lo, hi) && Shaped(t)
    ensures PutSeen(rule, t, k, v) == RecPut(rule, t, k, v)
    decreases t
  {
    var r := RecPut(rule, t, k, v);
    RecPutOk(rule, t, k, v, h, lo, hi, least);
    if r.Split? { PromotedIsNotEmpty(rule, r, h, lo, hi, least); }
    if t.Node? {
      var i := WriteIndex(rule, t.keys, k);
      WriteIndexWithin(rule, t.keys, k, lo, hi);
      SeenIsPut(rule, t.kids[i], k, v, h - 1, LowAt(t.keys, lo, i), HighAt(t.keys, hi, i), MIN_KEYS);
    }
  }

  /** What a recursive Put has returned. */
  ghost predicate Returned(log: seq<NodeRec>, r: PutResult, cid: Cid, promoted: Key, promotedCid: Cid)
    requires LogOk(log)
  {
    cid < |log| &&
    match r
    case Done(t) => promoted == EMPTY_KEY && TreeAt(log, cid) == t
    case Split(l, s, c) =>
      promoted == s && s > EMPTY_KEY && TreeAt(log, cid) == l && promotedCid < |log| && TreeAt(log, promotedCid) == c
  }

  method RecursivePut(sh: Shell, rule: Rule, cid: Cid, key: Key, value: Value)
    returns (ok: bool, newCid: Cid, promoted: Key, promotedCid: Cid)
    requires sh.Valid() && (cid < |sh.log| ==> Shaped(TreeAt(sh.log, cid)))
    modifies sh
    ensures Extends(old(sh.log), sh.log) && (ok <==> cid < |old(sh.log)|)
    ensures ok ==> Returned(sh.log, PutSeen(rule, TreeAt(old(sh.log), cid), key, value), newCid, promoted, promotedCid)
    decreases cid, 1
  {
    newCid, promoted, promotedCid := 0, EMPTY_KEY, 0;
    var n := sh.Cat(cid);
    if n.None? { return false, newCid, promoted, promotedCid; }
    ok := true;
    var node := n.value;
    if node.isLeaf {
      newCid, promoted, promotedCid := PutInLeaf(sh, rule, node, key, value);
    } else {
      ghost var t := TreeAt(sh.log, cid);
      var i := WriteIndex(rule, node.keys, key);
      DenotesStored(sh.log, cid);
      assert Shaped(t.kids[i]);
      newCid, promoted, promotedCid := PutBelow(sh, rule, node, i, key, value, t.kids[i], cid);
    }
  }

  /** The leaf branch of RecursivePut. */
  method PutInLeaf(sh: Shell, rule: Rule, leaf: NodeRec, key: Key, value: Value)
    returns (newCid: Cid, promoted: Key, promotedCid: Cid)
    requires sh.Valid() && leaf.isLeaf && Canonical(leaf) && |leaf.values| == |leaf.keys|
    modifies sh
    ensures Extends(old(sh.log), sh.log)
    ensures Returned(sh.log, Seen(LeafSplit(rule, LeafPut(Leaf(leaf.keys, leaf.values), key, value))),
                     newCid, promoted, promotedCid)
  {
    var node := leaf;
    var i := Search(node.keys, key);
    if i < |node.keys| && node.keys[i] == key {
      node := node.(values := node.values[i := node.values[i] + [value]]);
    } else {
      node := node.(keys := InsertAt(node.keys, i, key), values := InsertAt(node.values, i, [value]));
    }
    assert Leaf(node.keys, node.values) == LeafPut(Leaf(leaf.keys, leaf.values), key, value);
    newCid, promoted, promotedCid := SaveOrSplitLeaf(sh, rule, node);
  }

  /** Saves a changed leaf, in two parts when it is overfull. */
  method SaveOrSplitLeaf(sh: Shell, rule: Rule, leaf: NodeRec) returns (newCid: Cid, promoted: Key, promotedCid: Cid)
    requires sh.Valid() && leaf.isLeaf && Canonical(leaf) && |leaf.values| == |leaf.keys|
    modifies sh
    ensures Extends(old(sh.log), sh.log)
    ensures Returned(sh.log, Seen(LeafSplit(rule, Leaf(leaf.keys, leaf.values))), newCid, promoted, promotedCid)
  {
    promoted, promotedCid := EMPTY_KEY, 0;
    var node := leaf;
    if |node.keys| > MAX_KEYS {
      var mid := |node.keys| / 2;
      var from := if rule.AsWritten? then mid + 1 else mid;
      promoted := node.keys[mid];
      var newNode := NodeRec(true, node.keys[from..], node.values[from..], []);
      node := node.(keys := node.keys[..mid], values := node.values[..mid]);
      newCid, promotedCid := AddBoth(sh, node, newNode);
    } else {
      newCid := sh.Add(node);
    }
  }

  /** The inner-node branch: Put below child `i`, then take in what was promoted. */
  method PutBelow(
    sh: Shell, rule: Rule, inner: NodeRec, i: nat, key: Key, value: Value, ghost kid: Tree, ghost cid: Cid)
    returns (newCid: Cid, promoted: Key, promotedCid: Cid)
    requires sh.Valid() && !inner.isLeaf && Canonical(inner) && cid < |sh.log| && Below(inner.children, cid)
    requires |inner.children| == |inner.keys| + 1 && i < |inner.children|
    requires kid == TreeAt(sh.log, inner.children[i]) && Shaped(kid)
    modifies sh
    ensures Extends(old(sh.log), sh.log)
    ensures Returned(sh.log, Seen(NodeSplit(Replace(Denoted(old(sh.log), inner), i, PutSeen(rule, kid, key, value)))),
                     newCid, promoted, promotedCid)
    decreases cid, 0
  {
    ghost var before := sh.log;
    var _, childCid, childPromoted, childPromotedCid := RecursivePut(sh, rule, inner.children[i], key, value);
    var node := TakeIn(sh, inner, i, childCid, childPromoted, childPromotedCid, before, PutSeen(rule, kid, key, value));
    newCid, promoted, promotedCid := SaveOrSplit(sh, node);
  }

  /** Saves a changed inner node, in two halves when it is overfull. */
  method SaveOrSplit(sh: Shell, node: NodeRec) returns (newCid: Cid, promoted: Key, promotedCid: Cid)
    requires sh.Valid() && !node.isLeaf && Canonical(node) && Below(node.children, |sh.log|)
    requires |node.children| == |node.keys| + 1
    modifies sh
    ensures Extends(old(sh.log), sh.log)
    ensures Returned(sh.log, Seen(NodeSplit(Denoted(old(sh.log), node))), newCid, promoted, promotedCid)
  {
    promoted, promotedCid := EMPTY_KEY, 0;
    if |node.keys| > MAX_KEYS {
      promoted, newCid, promotedCid := SplitNode(sh, node);
    } else {
      newCid := sh.Add(node);
    }
  }

  /** The child's new CID, and a promoted key with its right half, taken into the node. */
  method TakeIn(sh: Shell, inner: NodeRec, i: nat, childCid: Cid, childPromoted: Key, childPromotedCid: Cid,
                ghost before: seq<NodeRec>, ghost r: PutResult)
    returns (node: NodeRec)
    requires Extends(before, sh.log) && !inner.isLeaf && Canonical(inner) && Below(inner.children, |before|)
    requires |inner.children| == |inner.keys| + 1 && i < |inner.children|
    requires Returned(sh.log, r, childCid, childPromoted, childPromotedCid)
    ensures !node.isLeaf && Canonical(node) && Below(node.children, |sh.log|)
    ensures |node.children| == |node.keys| + 1
    ensures Denoted(sh.log, node) == Replace(Denoted(before, inner), i, r)
  {
    ForestPersists(before, sh.log, inner.children);
    node := inner.(children := inner.children[i := childCid]);
    if childPromoted != EMPTY_KEY {
      node := node.(keys := InsertAt(node.keys, i, childPromoted),
                    children := node.children[..i + 1] + [childPromotedCid] + node.children[i + 1..]);
      assert node.children == inner.children[..i] + [childCid, childPromotedCid] + inner.children[i + 1..];
      ForestInsert(sh.log, inner.children, i, childCid, childPromotedCid);
    } else {
      ForestUpdate(sh.log, inner.children, i, childCid);
    }
  }

  /** Child `i` replaced by two. */
  lemma {:induction false} ForestInsert(log: seq<NodeRec>, cs: seq<Cid>, i: nat, a: Cid, b: Cid)
    requires LogOk(log) && Below(cs, |log|) && i < |cs| && a < |log| && b < |log|
    ensures var ds := cs[..i] + [a, b] + cs[i + 1..];
      Below(ds, |log|) &&
      var kids := Forest(log, cs, |log|);
      Forest(log, ds, |log|) == kids[..i] + [TreeAt(log, a), TreeAt(log, b)] + kids[i + 1..]
  {
    ForestCut(log, cs, i);
    ForestCut(log, cs, i + 1);
    ForestJoin(log, cs[..i], [a, b]);
    ForestJoin(log, cs[..i] + [a, b], cs[i + 1..]);
    assert Forest(log, [a, b], |log|) == [TreeAt(log, a), TreeAt(log, b)];
  }

  /** Child `i` replaced by one. */
  lemma {:induction false} ForestUpdate(log: seq<NodeRec>, cs: seq<Cid>, i: nat, a: Cid)
    requires LogOk(log) && Below(cs, |log|) && i < |cs| && a < |log|
    ensures Below(cs[i := a], |log|) && Forest(log, cs[i := a], |log|) == Forest(log, cs, |log|)[i := TreeAt(log, a)]
  {
    var was, now := Forest(log, cs, |log|), Forest(log, cs[i := a], |log|);
    forall j | 0 <= j < |now| ensures now[j] == was[i := TreeAt(log, a)][j] {
      assert now[j] == TreeAt(log, cs[i := a][j]);
    }
  }

  /** An overfull inner node is cut at the middle key, and both halves are saved. */
  method SplitNode(sh: Shell, node: NodeRec) returns (promoted: Key, leftCid: Cid, rightCid: Cid)
    requires sh.Valid() && Below(node.children, |sh.log|) && Canonical(node)
    requires !node.isLeaf && |node.children| == |node.keys| + 1 && |node.keys| > MAX_KEYS
    modifies sh
    ensures Extends(old(sh.log), sh.log) && leftCid < |sh.log| && rightCid < |sh.log|
    ensures NodeSplit(Denoted(old(sh.log), node)) == Split(TreeAt(sh.log, leftCid), promoted, TreeAt(sh.log, rightCid))
  {
    ghost var before := sh.log;
    var mid := |node.keys| / 2;
    promoted := node.keys[mid];
    var right := NodeRec(false, node.keys[mid + 1..], [], node.children[mid + 1..]);
    var left := node.(keys := node.keys[..mid], children := node.children[..mid + 1]);
    ghost var t := Denoted(before, node);
    SplitDenotes(before, node, mid);
    assert Denoted(before, left) == Node(t.keys[..mid], t.kids[..mid + 1]);
    assert Denoted(before, right) == Node(t.keys[mid + 1..], t.kids[mid + 1..]);
    leftCid, rightCid := AddBoth(sh, left, right);
  }

  /** Saves the right node, then the left one. */
  method AddBoth(sh: Shell, left: NodeRec, right: NodeRec) returns (leftCid: Cid, rightCid: Cid)
    requires sh.Valid() && Canonical(left) && Canonical(right)
    requires Below(left.children, |sh.log|) && Below(right.children, |sh.log|)
    modifies sh
    ensures Extends(old(sh.log), sh.log) && leftCid < |sh.log| && rightCid < |sh.log|
    ensures TreeAt(sh.log, leftCid) == Denoted(old(sh.log), left)
    ensures TreeAt(sh.log, rightCid) == Denoted(old(sh.log), right)
  {
    ghost var before := sh.log;
    rightCid := sh.Add(right);
    ghost var between := sh.log;
    ForestPersists(before, between, left.children);
    leftCid := sh.Add(left);
    TreesArePersistent(between, sh.log, rightCid);
  }

  lemma {:induction false} SplitDenotes(log: seq<NodeRec>, node: NodeRec, mid: nat)
    requires LogOk(log) && Below(node.children, |log|) && !node.isLeaf && mid < |node.keys| < |node.children|
    ensures Below(node.children[mid + 1..], |log|) && Below(node.children[..mid + 1], |log|)
    ensures Forest(log, node.children[mid + 1..], |log|) == Forest(log, node.children, |log|)[mid + 1..]
    ensures Forest(log, node.children[..mid + 1], |log|) == Forest(log, node.children, |log|)[..mid + 1]
  {
    ForestCut(log, node.children, mid + 1);
  }

  /** Put on the tree as its code sees it. */
  function PutRoot(rule: Rule, t: Tree, k: Key, v: Value): Tree
    requires Shaped(t)
  {
    match PutSeen(rule, t, k, v)
    case Done(r) => r
    case Split(l, s, r) => Node([s], [l, r])
  }

  lemma {:induction false} PutRootIsPut(rule: Rule, t: Tree, k: Key, v: Value, h: nat)
    requires RootOk(rule, t, h) && Shaped(t)
    ensures PutRoot(rule, t, k, v) == Put(rule, t, k, v)
  {
    SeenIsPut(rule, t, k, v, h, LOW, HIGH, if t.Leaf? then 0 else 1);
  }

  /** Put: the CID of the new root, or an error if the old root was never added. */
  method PutValue(sh: Shell, rule: Rule, root: Cid, key: Key, value: Value) returns (r: Option<Cid>)
    requires sh.Valid() && (root < |sh.log| ==> Shaped(TreeAt(sh.log, root)))
    modifies sh
    ensures Extends(old(sh.log), sh.log) && (r.Some? <==> root < |old(sh.log)|)
    ensures r.Some? ==>
      r.value < |sh.log| && TreeAt(sh.log, r.value) == PutRoot(rule, TreeAt(old(sh.log), root), key, value)
  {
    var ok, newCid, promoted, promotedCid := RecursivePut(sh, rule, root, key, value);
    if !ok { return None; }
    if promoted != EMPTY_KEY {
      var newRoot := NodeRec(false, [promoted], [], [newCid, promotedCid]);
      ghost var kids := Forest(sh.log, newRoot.children, |sh.log|);
      assert kids == [TreeAt(sh.log, newCid), TreeAt(sh.log, promotedCid)];
      newCid := sh.Add(newRoot);
    }
    r := Some(newCid);
  }
}
