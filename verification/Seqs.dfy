/** Facts about cutting and joining sequences, stated once so that proofs can name the one they need. */
module Seqs {

  predicate Distinct<T(==)>(s: seq<T>) {
    forall i, j :: 0 <= i < j < |s| ==> s[i] != s[j]
  }

  lemma {:induction false} Assoc<T>(a: seq<T>, b: seq<T>, c: seq<T>)
    ensures a + b + c == a + (b + c)
  {
  }

  lemma {:induction false} Cut<T>(s: seq<T>, i: nat)
    requires i <= |s|
    ensures s == s[..i] + s[i..]
  {
  }

  /** A suffix is its first element and the rest. */
  lemma {:induction false} Uncons<T>(s: seq<T>, i: nat)
    requires i < |s|
    ensures s[i..] == [s[i]] + s[i + 1..]
  {
  }

  /** A prefix is what comes before its last element, and that element. */
  lemma {:induction false} Unsnoc<T>(s: seq<T>, i: nat)
    requires i < |s|
    ensures s[..i + 1] == s[..i] + [s[i]]
  {
  }

  lemma {:induction false} Whole<T>(s: seq<T>, i: nat)
    requires i <= |s|
    ensures s[0..i] == s[..i] && s[i..|s|] == s[i..]
  {
  }

  /** The tail of a joined sequence. */
  lemma {:induction false} TailOfJoin<T>(a: seq<T>, b: seq<T>)
    requires a != []
    ensures (a + b)[0] == a[0] && (a + b)[1..] == a[1..] + b
  {
  }

  lemma {:induction false} Update<T>(s: seq<T>, i: nat, x: T)
    requires i < |s|
    ensures s[i := x] == s[..i] + [x] + s[i + 1..]
  {
  }

  lemma {:induction false} Empty<T>(s: seq<T>)
    ensures s + [] == s == [] + s
  {
  }

  /** An element of a sequence, and what is left without it. */
  lemma {:induction false} TakeOut<T>(s: seq<T>, x: T) returns (l: seq<T>, r: seq<T>)
    requires x in s
    ensures s == l + ([x] + r) && multiset(l + r) == multiset(s) - multiset{x}
  {
    var k :| 0 <= k < |s| && s[k] == x;
    l, r := s[..k], s[k + 1..];
    assert s == l + ([x] + r);
    assert multiset(s) == multiset(l) + (multiset{x} + multiset(r));
  }
}
