/**
 The tree against a plain multimap, over whole runs: the intended code always agrees, the
 code as written agrees exactly while it meets none of the guards named here.
 */
module ProllyTreeRuns {
  import opened Keys
  import opened ProllyTree
  import opened ProllyTreeShape
  import opened ProllyTreeContents
  import opened ProllyTreeDelete

  datatype Op = PutOp(k: Key, v: Value) | DeleteOp(k: Key, v: Value)

  /** The multimap: Put appends to the key's list, Delete removes every copy of the value from it. */
  function History(ops: seq<Op>, q: Key): seq<Value> {
    if ops == [] then []
    else
      var before, op := History(ops[..|ops| - 1], q), ops[|ops| - 1];
      if op.k != q then before else if op.PutOp? then before + [op.v] else Without(before, op.v)
  }

  function Apply(rule: Rule, t: Tree, op: Op): Tree
    requires Shaped(t)
  {
    if op.PutOp? then Put(rule, t, op.k, op.v) else Delete(rule, t, op.k, op.v)
  }

  ghost predicate Stands(rule: Rule, t: Tree) {
    Shaped(t) && exists h :: RootOk(rule, t, h)
  }

  /** No Delete of the run repairs a leaf; asked of the code as written only. */
  ghost predicate Clean(rule: Rule, ops: seq<Op>)
    decreases |ops|, 0
  {
    rule.AsWritten? && ops != [] ==>
      var n := |ops| - 1;
      Clean(rule, ops[..n]) && (ops[n].DeleteOp? ==> !Underflows(rule, Run(rule, ops[..n]), ops[n].k, ops[n].v))
  }

  /** The tree after a run from the empty tree. Every tree on the way stands. */
  ghost function Run(rule: Rule, ops: seq<Op>): (t: Tree)
    requires Clean(rule, ops)
    ensures Stands(rule, t)
    decreases |ops|, 1
  {
    if ops == [] then
      assert RootOk(rule, EMPTY_TREE, 0);
      EMPTY_TREE
    else
      var n := |ops| - 1;
      ApplyStands(rule, Run(rule, ops[..n]), ops[n]);
      Apply(rule, Run(rule, ops[..n]), ops[n])
  }

  lemma {:induction false} ApplyStands(rule: Rule, t: Tree, op: Op)
    requires Stands(rule, t)
    requires rule.AsWritten? && op.DeleteOp? ==> !Underflows(rule, t, op.k, op.v)
    ensures Stands(rule, Apply(rule, t, op))
  {
    var h :| RootOk(rule, t, h);
    var r := Apply(rule, t, op);
    var h' := h;
    if op.PutOp? {
      PutKeepsShape(rule, t, op.k, op.v, h);
      h' := if RecPut(rule, t, op.k, op.v).Split? then h + 1 else h;
    } else {
      DeleteKeepsShape(rule, t, op.k, op.v, h);
      var d := RecDelete(rule, t, op.k, op.v);
      h' := if d.Node? && |d.keys| == 0 then h - 1 else h;
    }
    WFIsShaped(rule, r, h', LOW, HIGH, if r.Leaf? then 0 else 1);
  }

  lemma {:induction false} ApplyVals(rule: Rule, t: Tree, op: Op, q: Key)
    requires Stands(rule, t)
    requires rule.AsWritten? && op.DeleteOp? ==> !Underflows(rule, t, op.k, op.v)
    ensures Vals(Apply(rule, t, op), q)
         == if op.PutOp? then AfterPut(rule, t, op.k, op.v, q) else AfterDelete(t, op.k, op.v, q)
    ensures rule.AsWritten? ==> (IsSep(Apply(rule, t, op), q) <==>
              IsSep(t, q) || (op.PutOp? && Overflows(rule, t, op.k, op.v) && q == PromotedKey(rule, t, op.k, op.v)))
  {
    var h :| RootOk(rule, t, h);
    if op.PutOp? { PutVals(rule, t, op.k, op.v, h, q); } else { DeleteVals(rule, t, op.k, op.v, h, q); }
  }

  lemma {:induction false} GetOnStanding(rule: Rule, t: Tree, q: Key)
    requires Stands(rule, t)
    ensures Get(t, q) == Found(if rule.AsWritten? && IsSep(t, q) then [] else Vals(t, q))
  {
    var h :| RootOk(rule, t, h);
    GetReadsVals(rule, t, q, h, LOW, HIGH, if t.Leaf? then 0 else 1);
  }

  // --------------------------------------------------- the intended code

  lemma {:induction false} IntendedHolds(ops: seq<Op>, q: Key)
    ensures Vals(Run(Intended, ops), q) == History(ops, q)
    decreases |ops|
  {
    if ops != [] {
      var n := |ops| - 1;
      IntendedHolds(ops[..n], q);
      ApplyVals(Intended, Run(Intended, ops[..n]), ops[n], q);
    }
  }

  /** After any run of Put and Delete, Get returns the list the multimap holds. */
  lemma {:induction false} IntendedRefinesMultimap(ops: seq<Op>, q: Key)
    ensures Get(Run(Intended, ops), q) == Found(History(ops, q))
  {
    IntendedHolds(ops, q);
    GetOnStanding(Intended, Run(Intended, ops), q);
  }

  // -------------------------------------------------- the code as written

  lemma {:induction false} AsWrittenHolds(ops: seq<Op>, q: Key)
    requires Clean(AsWritten, ops)
    ensures IsSep(Run(AsWritten, ops), q) || Vals(Run(AsWritten, ops), q) == History(ops, q)
    decreases |ops|
  {
    if ops != [] {
      var n := |ops| - 1;
      AsWrittenHolds(ops[..n], q);
      ApplyVals(AsWritten, Run(AsWritten, ops[..n]), ops[n], q);
    }
  }

  /**
   A run that repairs no leaf: every key but the separators is answered from the multimap, and separators with
   nothing.
   */
  lemma {:induction false} AsWrittenLosesExactlySeparators(ops: seq<Op>, q: Key)
    requires Clean(AsWritten, ops)
    ensures Get(Run(AsWritten, ops), q) == Found(if IsSep(Run(AsWritten, ops), q) then [] else History(ops, q))
  {
    AsWrittenHolds(ops, q);
    GetOnStanding(AsWritten, Run(AsWritten, ops), q);
  }

  /** Some Put of the run split a leaf and moved `q` up. */
  ghost predicate WasPromoted(ops: seq<Op>, q: Key)
    requires Clean(AsWritten, ops)
  {
    ops != [] &&
    var n := |ops| - 1;
    var t, op := Run(AsWritten, ops[..n]), ops[n];
    WasPromoted(ops[..n], q)
    || (op.PutOp? && Overflows(AsWritten, t, op.k, op.v) && q == PromotedKey(AsWritten, t, op.k, op.v))
  }

  /** The separators are the keys moved up by the leaf splits of the run: once lost, a key stays lost. */
  lemma {:induction false} SeparatorsArePromotedKeys(ops: seq<Op>, q: Key)
    requires Clean(AsWritten, ops)
    ensures IsSep(Run(AsWritten, ops), q) <==> WasPromoted(ops, q)
    decreases |ops|
  {
    if ops != [] {
      var n := |ops| - 1;
      SeparatorsArePromotedKeys(ops[..n], q);
      ApplyVals(AsWritten, Run(AsWritten, ops[..n]), ops[n], q);
    }
  }

  /** The list a lookup returns. */
  function Read(t: Tree, q: Key): seq<Value> {
    if Get(t, q).Found? then Get(t, q).vs else []
  }

  /** A key moved up by a split was there before and answered, unless it is the key just put. */
  lemma {:induction false} PromotedWasLive(t: Tree, k: Key, v: Value, h: nat, lo: real, hi: real, least: nat)
    requires WF(AsWritten, t, h, lo, hi, least) && Within(AsWritten, k, lo, hi) && Shaped(t)
    requires Overflows(AsWritten, t, k, v) && PromotedKey(AsWritten, t, k, v) != k
    ensures var p := PromotedKey(AsWritten, t, k, v); Vals(t, p) != [] && !IsSep(t, p)
    decreases t
  {
    var p := PromotedKey(AsWritten, t, k, v);
    if t.Leaf? {
      LeafPutVals(t, k, v, p);
      LeafPutOk(AsWritten, t, k, v, lo, hi);
      var r := LeafPut(t, k, v);
      LeafValsAt(r.keys, r.vals, |r.keys| / 2);
    } else {
      var i := WriteIndex(AsWritten, t.keys, k);
      WriteIndexWithin(AsWritten, t.keys, k, lo, hi);
      var lo', hi' := LowAt(t.keys, lo, i), HighAt(t.keys, hi, i);
      PromotedWasLive(t.kids[i], k, v, h - 1, lo', hi', MIN_KEYS);
      PromotedIsInside(AsWritten, t.kids[i], k, v, h - 1, lo', hi', MIN_KEYS);
      RestVals(AsWritten, t, i, p, h, lo, hi, least);
      assert p !in t.keys;
      SepsOfOne(AsWritten, t, i, p, h, lo, hi, least);
    }
  }

  /** What the multimap says Put must do to every lookup. */
  ghost predicate PutsLikeMultimap(t: Tree, k: Key, v: Value)
    requires Shaped(t)
  {
    forall q :: Get(Put(AsWritten, t, k, v), q) == Found(Read(t, q) + if q == k then [v] else [])
  }

  /** The answer of a standing tree under the code as written. */
  ghost function Answer(t: Tree, q: Key): seq<Value> {
    if IsSep(t, q) then [] else Vals(t, q)
  }

  lemma {:induction false} AnswersAreRead(t: Tree, q: Key)
    requires Stands(AsWritten, t)
    ensures Get(t, q) == Found(Answer(t, q)) && Read(t, q) == Answer(t, q)
  {
    GetOnStanding(AsWritten, t, q);
  }

  /** What one Put of the code as written does to one lookup. */
  lemma {:induction false} PutAnswers(t: Tree, k: Key, v: Value, q: Key)
    requires Stands(AsWritten, t)
    ensures Get(Put(AsWritten, t, k, v), q)
         == Found(if IsSep(t, q) || (Overflows(AsWritten, t, k, v) && q == PromotedKey(AsWritten, t, k, v)) then []
                  else Vals(t, q) + if q == k then [v] else [])
  {
    ApplyStands(AsWritten, t, PutOp(k, v));
    ApplyVals(AsWritten, t, PutOp(k, v), q);
    AnswersAreRead(Apply(AsWritten, t, PutOp(k, v)), q);
  }

  lemma {:induction false} PutGoesWrong(t: Tree, k: Key, v: Value) returns (q: Key)
    requires Stands(AsWritten, t) && (IsSep(t, k) || Overflows(AsWritten, t, k, v))
    ensures Get(Put(AsWritten, t, k, v), q) != Found(Read(t, q) + if q == k then [v] else [])
  {
    q := if IsSep(t, k) then k else PromotedKey(AsWritten, t, k, v);
    PutAnswers(t, k, v, q);
    AnswersAreRead(t, q);
    if q != k {
      var h :| RootOk(AsWritten, t, h);
      PromotedWasLive(t, k, v, h, LOW, HIGH, if t.Leaf? then 0 else 1);
    }
  }

  /** As written, Put is exact if and only if the key is no separator and its leaf need not be split. */
  lemma {:induction false} PutExactness(t: Tree, k: Key, v: Value)
    requires Stands(AsWritten, t)
    ensures PutsLikeMultimap(t, k, v) <==> !IsSep(t, k) && !Overflows(AsWritten, t, k, v)
  {
    if IsSep(t, k) || Overflows(AsWritten, t, k, v) {
      var q := PutGoesWrong(t, k, v);
    } else {
      forall q ensures Get(Put(AsWritten, t, k, v), q) == Found(Read(t, q) + if q == k then [v] else []) {
        PutAnswers(t, k, v, q);
        AnswersAreRead(t, q);
      }
    }
  }

  ghost predicate DeletesLikeMultimap(t: Tree, k: Key, v: Value)
    requires Shaped(t)
  {
    forall q :: Get(Delete(AsWritten, t, k, v), q) == Found(if q == k then Without(Read(t, q), v) else Read(t, q))
  }

  /** As written, Delete is exact if and only if it does not have to repair a leaf. */
  lemma {:induction false} DeleteExactness(t: Tree, k: Key, v: Value)
    requires Stands(AsWritten, t)
    ensures DeletesLikeMultimap(t, k, v) <==> !Underflows(AsWritten, t, k, v)
  {
    var t' := Delete(AsWritten, t, k, v);
    if Underflows(AsWritten, t, k, v) {
      var h :| RootOk(AsWritten, t, h);
      var s := WrongSep(t, k, v);
      WrongSepIsSep(t, k, v, h, LOW, HIGH, 1);
      GetOnStanding(AsWritten, t, s);
      RepairedLeafAnswersWrong(t, k, v, h, LOW, HIGH, 1);
      var r := RecDelete(AsWritten, t, k, v);
      if |r.keys| == 0 { ReadsChild(r, s, 0); }
      assert Get(t', s) == Get(r, s);
      assert Read(t, s) == [] && Finds(t', s);
      assert Get(t', s) != Found(if s == k then Without(Read(t, s), v) else Read(t, s));
    } else {
      forall q ensures Get(t', q) == Found(if q == k then Without(Read(t, q), v) else Read(t, q)) {
        GetOnStanding(AsWritten, t, q);
        ApplyStands(AsWritten, t, DeleteOp(k, v));
        GetOnStanding(AsWritten, t', q);
        ApplyVals(AsWritten, t, DeleteOp(k, v), q);
      }
    }
  }

  // ---------------------------------------- deleting what is not there

  lemma {:induction false} RecDeleteAbsent(
    rule: Rule, t: Tree, k: Key, v: Value, h: nat, lo: real, hi: real, least: nat)
    requires WF(rule, t, h, lo, hi, least) && Within(rule, k, lo, hi) && Shaped(t) && v !in Vals(t, k)
    ensures RecDelete(rule, t, k, v) == t
    decreases t
  {
    if t.Leaf? {
      var i := Search(t.keys, k);
      if Holds(t.keys, k) {
        LeafValsAt(t.keys, t.vals, i);
        assert t.vals[i := t.vals[i]] == t.vals;
      }
    } else {
      var i := WriteIndex(rule, t.keys, k);
      WriteIndexWithin(rule, t.keys, k, lo, hi);
      RestVals(rule, t, i, k, h, lo, hi, least);
      RecDeleteAbsent(rule, t.kids[i], k, v, h - 1, LowAt(t.keys, lo, i), HighAt(t.keys, hi, i), MIN_KEYS);
    }
  }

  /** Deleting a pair that is not stored changes nothing; by DeleteValue the root then keeps its CID. */
  lemma {:induction false} DeletingAbsentKeepsTree(rule: Rule, t: Tree, k: Key, v: Value)
    requires Stands(rule, t) && v !in Vals(t, k)
    ensures Delete(rule, t, k, v) == t
  {
    var h :| RootOk(rule, t, h);
    RecDeleteAbsent(rule, t, k, v, h, LOW, HIGH, if t.Leaf? then 0 else 1);
  }

  // -------------------------------------------------- a concrete run

  /** The keys put one after another, each with the same value. */
  function Puts(ks: seq<Key>, v: Value): seq<Op> { seq(|ks|, i requires 0 <= i < |ks| => PutOp(ks[i], v)) }

  /** A leaf in which every key has that one value. */
  function Full(ks: seq<Key>, v: Value): (t: Tree)
    ensures LocalShape(t)
  {
    Leaf(ks, seq(|ks|, _ => [v]))
  }

  lemma {:induction false} PutsUnsnoc(ks: seq<Key>, v: Value)
    requires ks != []
    ensures var n := |ks| - 1; Puts(ks, v)[..n] == Puts(ks[..n], v) && Puts(ks, v)[n] == PutOp(ks[n], v)
    ensures var n := |ks| - 1; Puts(ks, v) == Puts(ks[..n], v) + [PutOp(ks[n], v)]
  {
  }

  lemma {:induction false} PutsAreClean(rule: Rule, ks: seq<Key>, v: Value)
    ensures Clean(rule, Puts(ks, v))
  {
    if ks != [] {
      PutsUnsnoc(ks, v);
      PutsAreClean(rule, ks[..|ks| - 1], v);
    }
  }

  lemma {:induction false} PutLargest(ks: seq<Key>, v: Value)
    requires ks != [] && Sorted(ks)
    ensures var n := |ks| - 1; LeafPut(Full(ks[..n], v), ks[n], v) == Full(ks, v)
  {
    var n := |ks| - 1;
    var t := Full(ks[..n], v);
    SearchUnique(t.keys, ks[n], n);
    assert InsertAt(t.keys, n, ks[n]) == ks && InsertAt(t.vals, n, [v]) == Full(ks, v).vals;
  }

  lemma {:induction false} RunOneMore(rule: Rule, ops: seq<Op>, op: Op)
    requires Clean(rule, ops)
    requires rule.AsWritten? && op.DeleteOp? ==> !Underflows(rule, Run(rule, ops), op.k, op.v)
    ensures Clean(rule, ops + [op]) && Run(rule, ops + [op]) == Apply(rule, Run(rule, ops), op)
  {
    var all := ops + [op];
    assert all[..|all| - 1] == ops;
  }

  lemma {:induction false} PutOnFullLeaf(rule: Rule, ks: seq<Key>, v: Value)
    requires 0 < |ks| <= MAX_KEYS && Sorted(ks)
    ensures Sorted(ks[..|ks| - 1]) && Apply(rule, Full(ks[..|ks| - 1], v), PutOp(ks[|ks| - 1], v)) == Full(ks, v)
  {
    PutLargest(ks, v);
  }

  /** The first seven keys go into one leaf. */
  lemma {:induction false} PutsFillALeaf(rule: Rule, ks: seq<Key>, v: Value)
    requires |ks| <= MAX_KEYS && Sorted(ks)
    ensures Clean(rule, Puts(ks, v)) && Run(rule, Puts(ks, v)) == Full(ks, v)
  {
    if ks == [] {
      assert Puts(ks, v) == [];
    } else {
      var n := |ks| - 1;
      PutOnFullLeaf(rule, ks, v);
      PutsFillALeaf(rule, ks[..n], v);
      PutsUnsnoc(ks, v);
      RunOneMore(rule, Puts(ks[..n], v), PutOp(ks[n], v));
    }
  }

  function TwoLeaves(left: seq<Key>, sep: Key, right: seq<Key>, v: Value): (t: Tree)
    ensures Shaped(t) && t.Node?
  {
    var t := Node([sep], [Full(left, v), Full(right, v)]);
    assert Shaped(t.kids[0]) && Shaped(t.kids[1]);
    t
  }

  lemma {:induction false} FullLeafSplits(ks: seq<Key>, v: Value)
    requires |ks| == 8
    ensures LeafSplit(AsWritten, Full(ks, v)) == Split(Full(ks[..4], v), ks[4], Full(ks[5..], v))
  {
    assert Full(ks, v).vals[..4] == Full(ks[..4], v).vals && Full(ks, v).vals[5..] == Full(ks[5..], v).vals;
  }

  /** The eighth splits it; as written, the fifth key is now a separator and nothing else. */
  lemma {:induction false} EighthPutSplits(ks: seq<Key>, v: Value)
    requires |ks| == 8 && Sorted(ks)
    ensures Clean(AsWritten, Puts(ks, v)) && Run(AsWritten, Puts(ks, v)) == TwoLeaves(ks[..4], ks[4], ks[5..], v)
  {
    PutsFillALeaf(AsWritten, ks[..7], v);
    RunOneMore(AsWritten, Puts(ks[..7], v), PutOp(ks[7], v));
    assert Puts(ks, v) == Puts(ks[..7], v) + [PutOp(ks[7], v)];
    PutLargest(ks, v);
    FullLeafSplits(ks, v);
  }

  lemma {:induction false} GetFull(ks: seq<Key>, v: Value, i: nat)
    requires Sorted(ks) && i < |ks|
    ensures Get(Full(ks, v), ks[i]) == Found([v])
  {
    SearchUnique(ks, ks[i], i);
  }

  lemma {:induction false} GetBelow(ks: seq<Key>, v: Value, k: Key)
    requires ks != [] ==> k < ks[0]
    ensures Get(Full(ks, v), k) == Found([])
  {
  }

  /** A lookup of the separator or of a larger key goes right. */
  lemma {:induction false} GetRight(left: seq<Key>, sep: Key, right: seq<Key>, v: Value, k: Key)
    requires sep <= k
    ensures Get(TwoLeaves(left, sep, right, v), k) == Get(Full(right, v), k)
  {
    SearchUnique([sep], k, if sep == k then 0 else 1);
  }

  /**
   Eight keys put from the empty tree: as written the fifth then answers nothing, and with seven it still answered.
   */
  lemma {:induction false} EightPutsLoseTheFifth(ks: seq<Key>, v: Value)
    requires |ks| == 8 && Sorted(ks)
    ensures Clean(AsWritten, Puts(ks, v)) && Clean(AsWritten, Puts(ks[..7], v))
    ensures Get(Run(AsWritten, Puts(ks[..7], v)), ks[4]) == Found([v])
    ensures Get(Run(AsWritten, Puts(ks, v)), ks[4]) == Found([])
    ensures Get(Run(Intended, Puts(ks, v)), ks[4]) == Found([v])
  {
    PutsFillALeaf(AsWritten, ks[..7], v);
    GetFull(ks[..7], v, 4);
    EighthPutSplits(ks, v);
    GetRight(ks[..4], ks[4], ks[5..], v, ks[4]);
    GetBelow(ks[5..], v, ks[4]);
    IntendedRefinesMultimap(Puts(ks, v), ks[4]);
    PutOnce(ks, v, 4);
  }

  /** The multimap of a run that puts different keys has each with its value. */
  lemma {:induction false} PutOnce(ks: seq<Key>, v: Value, i: nat)
    requires Sorted(ks) && i < |ks|
    ensures History(Puts(ks, v), ks[i]) == [v]
  {
    var n := |ks| - 1;
    PutsUnsnoc(ks, v);
    if i < n { PutOnce(ks[..n], v, i); } else { PutNever(ks[..n], v, ks[n]); }
  }

  lemma {:induction false} PutNever(ks: seq<Key>, v: Value, q: Key)
    requires q !in ks
    ensures History(Puts(ks, v), q) == []
  {
    if ks != [] {
      PutsUnsnoc(ks, v);
      PutNever(ks[..|ks| - 1], v, q);
    }
  }

  lemma {:induction false} DeletedFromLeaf(ks: seq<Key>, v: Value, i: nat)
    requires Sorted(ks) && i < |ks|
    ensures LeafDelete(Full(ks, v), ks[i], v) == Full(RemoveAt(ks, i), v)
  {
    SearchUnique(ks, ks[i], i);
    assert Without([v], v) == Without([], v) == [] by { assert [v][1..] == []; }
    assert RemoveAt(Full(ks, v).vals, i) == Full(RemoveAt(ks, i), v).vals;
  }

  /** A key deleted from the left of two leaves. */
  lemma {:induction false} DeletedFromLeft(left: seq<Key>, sep: Key, right: seq<Key>, v: Value, i: nat)
    requires Sorted(left) && i < |left| && left[i] <= sep
    ensures var t, rest := TwoLeaves(left, sep, right, v), Full(RemoveAt(left, i), v);
      && (Underflows(AsWritten, t, left[i], v) <==> |left| <= MIN_KEYS)
      && Repairable(Node([sep], [rest, Full(right, v)]))
      && RecDelete(AsWritten, t, left[i], v) ==
           if |left| <= MIN_KEYS then HandleUnderflow(AsWritten, Node([sep], [rest, Full(right, v)]), 0)
           else Node([sep], [rest, Full(right, v)])
  {
    var t, c := TwoLeaves(left, sep, right, v), Full(RemoveAt(left, i), v);
    SearchUnique(t.keys, left[i], 0);
    DeletedFromLeaf(left, v, i);
    assert |c.keys| == |left| - 1 && t.kids[0] == Full(left, v) && t.kids[0 := c] == [c, Full(right, v)];
    assert WriteIndex(AsWritten, t.keys, left[i]) == 0;
    assert ReachedLeaf(AsWritten, t.kids[0], left[i]) == t.kids[0] && RecDelete(AsWritten, t.kids[0], left[i], v) == c;
    var n := Node([sep], [c, Full(right, v)]);
    assert n.kids[0] == c && n.kids[1] == Full(right, v);
  }

  /** The tree that eight puts and the deletion of the fourth key leave, without a repair: two leaves of three keys. */
  lemma {:induction false} FourthDeleted(ks: seq<Key>, v: Value)
    requires |ks| == 8 && Sorted(ks)
    ensures var ops := Puts(ks, v) + [DeleteOp(ks[3], v)];
      Clean(AsWritten, ops) && Run(AsWritten, ops) == TwoLeaves(ks[..3], ks[4], ks[5..], v)
  {
    EighthPutSplits(ks, v);
    DeletedFromLeft(ks[..4], ks[4], ks[5..], v, 3);
    assert RemoveAt(ks[..4], 3) == ks[..3];
    RunOneMore(AsWritten, Puts(ks, v), DeleteOp(ks[3], v));
  }

  lemma {:induction false} LeftLeafIsMerged(l: Tree, s: Key, c: Tree)
    requires l.Leaf? && c.Leaf? && LocalShape(l) && LocalShape(c) && |c.keys| == MIN_KEYS
    ensures Repairable(Node([s], [l, c]))
    ensures HandleUnderflow(AsWritten, Node([s], [l, c]), 0) == Node([], [Merge(AsWritten, l, s, c)])
  {
    var n := Node([s], [l, c]);
    assert n.kids[0] == l && n.kids[1] == c;
  }

  lemma {:induction false} MergedAsWritten(l: seq<Key>, s: Key, r: seq<Key>, v: Value)
    requires r != [] && Sorted(l + [s] + r)
    ensures Get(Merge(AsWritten, Full(l, v), s, Full(r, v)), r[|r| - 1]) == Panic
  {
    var m, n := Merge(AsWritten, Full(l, v), s, Full(r, v)), |l| + |r|;
    assert m.keys == l + [s] + r && |m.vals| == n && m.keys[n] == r[|r| - 1];
    SearchUnique(m.keys, m.keys[n], n);
  }

  /** The first of two leaves of three keys deleted. */
  lemma {:induction false} FirstDeleted(left: seq<Key>, sep: Key, right: seq<Key>, v: Value)
    requires |left| == 3 == |right| && Sorted(left) && left[0] <= sep
    ensures Delete(AsWritten, TwoLeaves(left, sep, right, v), left[0], v)
         == Merge(AsWritten, Full(left[1..], v), sep, Full(right, v))
  {
    DeletedFromLeft(left, sep, right, v, 0);
    assert RemoveAt(left, 0) == left[1..];
    LeftLeafIsMerged(Full(left[1..], v), sep, Full(right, v));
  }

  /**
   Nine updates from the empty tree, none of which repairs a leaf, and a tenth that merges two leaves: as written, the
   merged leaf has one value list too few, and reading its last key, which answered before, panics.
   */
  lemma {:induction false} MergedLeafPanics(ks: seq<Key>, v: Value)
    requires |ks| == 8 && Sorted(ks)
    ensures var ops := Puts(ks, v) + [DeleteOp(ks[3], v)];
      && Clean(AsWritten, ops) && Get(Run(AsWritten, ops), ks[7]) == Found([v])
      && Get(Delete(AsWritten, Run(AsWritten, ops), ks[0], v), ks[7]) == Panic
  {
    FourthDeleted(ks, v);
    var left, right := ks[..3], ks[5..];
    assert ks[7] == right[|right| - 1] && ks[0] == left[0] && |left| == 3 == |right|;
    MergedTwoLeaves(left, ks[4], right, v);
  }

  /** Two leaves of three keys: the last key answers until the first is deleted. */
  lemma {:induction false} MergedTwoLeaves(left: seq<Key>, sep: Key, right: seq<Key>, v: Value)
    requires |left| == 3 == |right| && Sorted(left) && Sorted(right) && left[2] < sep < right[0]
    ensures Get(TwoLeaves(left, sep, right, v), right[2]) == Found([v])
    ensures Get(Delete(AsWritten, TwoLeaves(left, sep, right, v), left[0], v), right[2]) == Panic
  {
    GetRight(left, sep, right, v, right[2]);
    GetFull(right, v, 2);
    FirstDeleted(left, sep, right, v);
    MergedAsWritten(left[1..], sep, right, v);
  }
}
