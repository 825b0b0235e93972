/** First-occurrence de-duplication by a key. */
module Dedup {
  import Seqs

  function KeySet<T(==), K(==)>(key: T -> K, xs: seq<T>): set<K> {
    set x | x in xs :: key(x)
  }

  /** The elements whose key is neither in `seen` nor that of an earlier element. */
  function KeepAfter<T(==), K(==)>(key: T -> K, seen: set<K>, xs: seq<T>): seq<T> {
    if xs == [] then []
    else
      var n := |xs| - 1;
      KeepAfter(key, seen, xs[..n]) + if key(xs[n]) in seen + KeySet(key, xs[..n]) then [] else [xs[n]]
  }

  function Keep<T(==), K(==)>(key: T -> K, xs: seq<T>): seq<T> { KeepAfter(key, {}, xs) }

  lemma {:induction false} KeySetJoin<T, K>(key: T -> K, xs: seq<T>, ys: seq<T>)
    ensures KeySet(key, xs + ys) == KeySet(key, xs) + KeySet(key, ys)
  {
  }

  lemma {:induction false} KeepSnoc<T, K>(key: T -> K, seen: set<K>, xs: seq<T>, x: T)
    ensures KeepAfter(key, seen, xs + [x]) ==
      KeepAfter(key, seen, xs) + if key(x) in seen + KeySet(key, xs) then [] else [x]
    ensures KeySet(key, xs + [x]) == KeySet(key, xs) + {key(x)}
  {
    assert (xs + [x])[..|xs|] == xs;
    KeySetJoin(key, xs, [x]);
    assert KeySet(key, [x]) == {key(x)};
  }

  /** What is kept has the keys that were not seen, each once. */
  lemma {:induction false} KeepKeys<T, K>(key: T -> K, seen: set<K>, xs: seq<T>)
    ensures KeySet(key, KeepAfter(key, seen, xs)) == KeySet(key, xs) - seen
    ensures forall x :: x in KeepAfter(key, seen, xs) ==> x in xs
  {
    if xs != [] {
      var n := |xs| - 1;
      KeepKeys(key, seen, xs[..n]);
      assert xs == xs[..n] + [xs[n]];
      KeepSnoc(key, seen, xs[..n], xs[n]);
      var kept := KeepAfter(key, seen, xs[..n]);
      var last := if key(xs[n]) in seen + KeySet(key, xs[..n]) then [] else [xs[n]];
      KeySetJoin(key, kept, last);
    }
  }

  lemma {:induction false} KeepsFirst<T, K>(key: T -> K, xs: seq<T>)
    requires xs != []
    ensures Keep(key, xs) != [] && Keep(key, xs)[0] == xs[0]
  {
    var n := |xs| - 1;
    if n > 0 {
      KeepsFirst(key, xs[..n]);
    } else {
      var none, seen: set<K> := xs[..n], {};
      assert none == [] && seen + KeySet(key, none) == seen && KeepAfter(key, seen, none) == [];
      assert KeepAfter(key, seen, xs) == [] + [xs[n]];
    }
  }

  lemma {:induction false} KeepDistinct<T, K>(key: T -> K, seen: set<K>, xs: seq<T>, i: nat, j: nat)
    requires i < j < |KeepAfter(key, seen, xs)|
    ensures key(KeepAfter(key, seen, xs)[i]) != key(KeepAfter(key, seen, xs)[j])
  {
    var n := |xs| - 1;
    var kept := KeepAfter(key, seen, xs[..n]);
    if j < |kept| {
      KeepDistinct(key, seen, xs[..n], i, j);
    } else {
      KeepKeys(key, seen, xs[..n]);
      assert kept[i] in kept && key(kept[i]) in KeySet(key, kept);
    }
  }

  /** De-duplicating a joined sequence: the second part after what the first has shown. */
  lemma {:induction false} KeepJoin<T, K>(key: T -> K, seen: set<K>, xs: seq<T>, ys: seq<T>)
    ensures KeepAfter(key, seen, xs + ys) == KeepAfter(key, seen, xs) + KeepAfter(key, seen + KeySet(key, xs), ys)
  {
    if ys == [] {
      Seqs.Empty(xs);
      Seqs.Empty(KeepAfter(key, seen, xs));
    } else {
      var n := |ys| - 1;
      var init, y := ys[..n], ys[n];
      assert ys == init + [y];
      KeepJoin(key, seen, xs, init);
      Seqs.Assoc(xs, init, [y]);
      KeepSnoc(key, seen, xs + init, y);
      KeepSnoc(key, seen + KeySet(key, xs), init, y);
      KeySetJoin(key, xs, init);
      assert seen + KeySet(key, xs + init) == seen + KeySet(key, xs) + KeySet(key, init);
      Seqs.Assoc(KeepAfter(key, seen, xs), KeepAfter(key, seen + KeySet(key, xs), init),
                 if key(y) in seen + KeySet(key, xs + init) then [] else [y]);
    }
  }

  /** De-duplicating twice is de-duplicating once. */
  lemma {:induction false} KeepKept<T, K>(key: T -> K, seen: set<K>, hidden: set<K>, xs: seq<T>)
    ensures KeepAfter(key, seen, KeepAfter(key, hidden, xs)) == KeepAfter(key, seen + hidden, xs)
  {
    if xs != [] {
      var n := |xs| - 1;
      var init, x := xs[..n], xs[n];
      assert xs == init + [x];
      KeepKept(key, seen, hidden, init);
      KeepSnoc(key, hidden, init, x);
      KeepSnoc(key, seen + hidden, init, x);
      KeepKeys(key, hidden, init);
      if key(x) in hidden + KeySet(key, init) {
        Seqs.Empty(KeepAfter(key, hidden, init));
        Seqs.Empty(KeepAfter(key, seen + hidden, init));
      } else {
        KeepSnoc(key, seen, KeepAfter(key, hidden, init), x);
      }
    }
  }

  lemma {:induction false} KeepTwice<T, K>(key: T -> K, xs: seq<T>)
    ensures Keep(key, Keep(key, xs)) == Keep(key, xs)
  {
    var none: set<K> := {};
    KeepKept(key, none, none, xs);
    assert none + none == none;
  }

  /** Parts may be de-duplicated before they are joined. */
  lemma {:induction false} KeepParts<T, K>(key: T -> K, xs: seq<T>, ys: seq<T>, xs': seq<T>, ys': seq<T>)
    requires Keep(key, xs') == Keep(key, xs) && Keep(key, ys') == Keep(key, ys)
    ensures Keep(key, xs' + ys') == Keep(key, xs + ys)
  {
    KeepJoin(key, {}, xs, ys);
    KeepJoin(key, {}, xs', ys');
    KeepKeys(key, {}, xs);
    KeepKeys(key, {}, xs');
    var seen := KeySet(key, xs);
    assert seen - {} == seen && KeySet(key, xs') - {} == KeySet(key, xs');
    assert KeySet(key, xs') == seen && {} + seen == seen;
    KeepKept(key, seen, {}, ys);
    KeepKept(key, seen, {}, ys');
    assert seen + {} == seen;
  }
}
