/**
 Keys made by joining rendered values with "||" (pkg/core/query.go), as GROUP BY and UNION make them: exactly which
 lists of values such a key identifies.
 */
module GroupKeys {

  const SEPARATOR := "||"

  function Join(parts: seq<string>): string {
    if parts == [] then "" else if |parts| == 1 then parts[0] else parts[0] + SEPARATOR + Join(parts[1..])
  }

  /** No other list of as many values has the same key. */
  ghost predicate Identified(a: seq<string>) {
    forall b: seq<string> :: |b| == |a| && Join(b) == Join(a) ==> b == a
  }

  predicate HasPipes(s: string) { exists k :: 0 <= k < |s| - 1 && s[k] == '|' && s[k + 1] == '|' }

  /** A value that a separator follows. */
  predicate ClosedRight(s: string) { !HasPipes(s) && (s != [] ==> s[|s| - 1] != '|') }

  /** A value that a separator precedes. */
  predicate ClosedLeft(s: string) { !HasPipes(s) && (s != [] ==> s[0] != '|') }

  /** No value reaches into a separator beside it. */
  predicate Clean(a: seq<string>) {
    && (forall i :: 0 <= i < |a| - 1 ==> ClosedRight(a[i]))
    && (forall i :: 1 <= i < |a| ==> ClosedLeft(a[i]))
  }

  // ---------------------------------------------------- where the parts are

  function Start(a: seq<string>, i: nat): nat
    requires i < |a|
  {
    if i == 0 then 0 else Start(a, i - 1) + |a[i - 1]| + 2
  }

  function End(a: seq<string>, i: nat): nat
    requires i < |a|
  {
    Start(a, i) + |a[i]|
  }

  lemma {:induction false} StartOfTail(a: seq<string>, i: nat)
    requires 1 <= i < |a|
    ensures Start(a, i) == |a[0]| + 2 + Start(a[1..], i - 1)
  {
    if i > 1 { StartOfTail(a, i - 1); }
  }

  lemma {:induction false} SliceAfter(prefix: string, s: string, from: nat, to: nat)
    requires from <= to <= |s|
    ensures (prefix + s)[|prefix| + from..|prefix| + to] == s[from..to]
  {
  }

  /** The parts lie in the key one after another, with two pipes before each but the first. */
  lemma {:induction false} PartAt(a: seq<string>, i: nat)
    requires i < |a|
    ensures End(a, i) <= |Join(a)| && Join(a)[Start(a, i)..End(a, i)] == a[i]
    ensures i > 0 ==> Start(a, i) >= 2 && Join(a)[Start(a, i) - 2] == '|' == Join(a)[Start(a, i) - 1]
    ensures i == |a| - 1 ==> End(a, i) == |Join(a)|
  {
    if |a| > 1 {
      var tail := Join(a[1..]);
      assert Join(a) == a[0] + SEPARATOR + tail;
      if i > 0 {
        StartOfTail(a, i);
        PartAt(a[1..], i - 1);
        SliceAfter(a[0] + SEPARATOR, tail, Start(a[1..], i - 1), End(a[1..], i - 1));
      }
    }
  }

  lemma {:induction false} PartChar(a: seq<string>, i: nat, k: nat)
    requires i < |a| && k < |a[i]|
    ensures Start(a, i) + k < |Join(a)| && Join(a)[Start(a, i) + k] == a[i][k]
  {
    PartAt(a, i);
    assert Join(a)[Start(a, i)..End(a, i)][k] == a[i][k];
  }

  // ------------------------------------------------------------ clean is enough

  /** Two pipes cannot begin inside a part that keeps clear of the separator after it. */
  lemma {:induction false} NoPipesFrom(a: seq<string>, i: nat, p: nat)
    requires i < |a| && ClosedRight(a[i]) && Start(a, i) <= p < End(a, i) && p + 1 < |Join(a)|
    ensures !(Join(a)[p] == '|' == Join(a)[p + 1])
  {
    var k, part := p - Start(a, i), a[i];
    PartChar(a, i, k);
    if k + 1 < |part| { PartChar(a, i, k + 1); }
  }

  /** Nor end inside a part that keeps clear of the separator before it. */
  lemma {:induction false} NoPipesTo(a: seq<string>, i: nat, p: nat)
    requires i < |a| && ClosedLeft(a[i]) && Start(a, i) <= p < End(a, i) && 0 < p < |Join(a)|
    ensures !(Join(a)[p - 1] == '|' == Join(a)[p])
  {
    var k, part := p - Start(a, i), a[i];
    PartChar(a, i, k);
    if k > 0 { PartChar(a, i, k - 1); }
  }

  /** Cuts of another list with the same key come no earlier. */
  lemma {:induction false} StartsNoEarlier(a: seq<string>, b: seq<string>, i: nat)
    requires Clean(a) && |a| == |b| && Join(a) == Join(b) && i < |a|
    ensures Start(a, i) <= Start(b, i)
  {
    if i > 0 {
      StartsNoEarlier(a, b, i - 1);
      PartAt(b, i);
      PartAt(a, i);
      var p := Start(b, i) - 2;
      if p < End(a, i - 1) { NoPipesFrom(a, i - 1, p); }
    }
  }

  /** And no later. */
  lemma {:induction false} EndsNoLater(a: seq<string>, b: seq<string>, i: nat)
    requires Clean(a) && |a| == |b| && Join(a) == Join(b) && i < |a|
    ensures End(b, i) <= End(a, i) && Start(b, i) <= Start(a, i)
    decreases |a| - i
  {
    PartAt(a, i);
    PartAt(b, i);
    if i < |a| - 1 { EndsNoLater(a, b, i + 1); }
    if i > 0 && Start(a, i) < Start(b, i) { NoPipesTo(a, i, Start(b, i) - 1); }
  }

  lemma {:induction false} CleanIdentifies(a: seq<string>, b: seq<string>)
    requires Clean(a) && |a| == |b| && Join(a) == Join(b)
    ensures a == b
  {
    forall i | 0 <= i < |a| ensures a[i] == b[i] {
      StartsNoEarlier(a, b, i);
      EndsNoLater(a, b, i);
      if i < |a| - 1 { StartsNoEarlier(a, b, i + 1); }
      PartAt(a, i);
      PartAt(b, i);
      assert End(a, i) == End(b, i);
    }
  }

  // --------------------------------------------------------- clean is needed

  /** Two neighbours may be cut elsewhere without changing the key. */
  lemma {:induction false} Recut(a: seq<string>, i: nat, x: string, y: string)
    requires i + 1 < |a| && x + SEPARATOR + y == a[i] + SEPARATOR + a[i + 1]
    ensures Join(a[i := x][i + 1 := y]) == Join(a)
  {
    var b := a[i := x][i + 1 := y];
    if i > 0 {
      assert b[1..] == a[1..][i - 1 := x][i := y];
      Recut(a[1..], i - 1, x, y);
    } else if |a| == 2 {
      assert Join(b) == x + SEPARATOR + y;
      assert Join(a) == a[0] + SEPARATOR + a[1];
    } else {
      var rest := SEPARATOR + Join(a[2..]);
      assert b[1..][1..] == a[2..] == a[1..][1..];
      assert Join(b[1..]) == y + rest;
      assert Join(a[1..]) == a[1] + rest;
      assert Join(b) == (x + SEPARATOR + y) + rest;
      assert Join(a) == (a[0] + SEPARATOR + a[1]) + rest;
    }
  }

  lemma {:induction false} RecutDiffers(a: seq<string>, i: nat, x: string, y: string)
    requires i + 1 < |a| && x + SEPARATOR + y == a[i] + SEPARATOR + a[i + 1] && x != a[i]
    ensures !Identified(a)
  {
    Recut(a, i, x, y);
    var b := a[i := x][i + 1 := y];
    assert |b| == |a| && b[i] != a[i];
  }

  lemma {:induction false} OpenRight(a: seq<string>, i: nat)
    requires i + 1 < |a| && !ClosedRight(a[i])
    ensures !Identified(a)
  {
    var s, t := a[i], a[i + 1];
    if HasPipes(s) {
      var k :| 0 <= k < |s| - 1 && s[k] == '|' && s[k + 1] == '|';
      assert s == s[..k] + SEPARATOR + s[k + 2..];
      assert s[..k] + SEPARATOR + (s[k + 2..] + SEPARATOR + t) == s + SEPARATOR + t;
      RecutDiffers(a, i, s[..k], s[k + 2..] + SEPARATOR + t);
    } else {
      var u := s[..|s| - 1];
      assert s == u + "|";
      assert u + SEPARATOR + ("|" + t) == s + SEPARATOR + t;
      RecutDiffers(a, i, u, "|" + t);
    }
  }

  lemma {:induction false} OpenLeft(a: seq<string>, i: nat)
    requires 1 <= i < |a| && !ClosedLeft(a[i])
    ensures !Identified(a)
  {
    var s, t := a[i - 1], a[i];
    if HasPipes(t) {
      var k :| 0 <= k < |t| - 1 && t[k] == '|' && t[k + 1] == '|';
      assert t == t[..k] + SEPARATOR + t[k + 2..];
      assert (s + SEPARATOR + t[..k]) + SEPARATOR + t[k + 2..] == s + SEPARATOR + t;
      RecutDiffers(a, i - 1, s + SEPARATOR + t[..k], t[k + 2..]);
    } else {
      assert t == "|" + t[1..];
      assert (s + "|") + SEPARATOR + t[1..] == s + SEPARATOR + t;
      RecutDiffers(a, i - 1, s + "|", t[1..]);
    }
  }

  /** A key identifies its values exactly when none of them reaches into a separator beside it. */
  lemma {:induction false} IdentifiedExactly(a: seq<string>)
    ensures Identified(a) <==> Clean(a)
  {
    if Clean(a) {
      forall b: seq<string> | |b| == |a| && Join(b) == Join(a) ensures b == a { CleanIdentifies(a, b); }
    } else if i :| 0 <= i < |a| - 1 && !ClosedRight(a[i]) {
      OpenRight(a, i);
    } else {
      var i :| 1 <= i < |a| && !ClosedLeft(a[i]);
      OpenLeft(a, i);
    }
  }

  /** Values without pipes are always identified; these two lists are not. */
  lemma {:induction false} PipesCollide()
    ensures Join(["a|", "b"]) == Join(["a", "|b"])
  {
    assert ["a|", "b"][1..] == ["b"] && ["a", "|b"][1..] == ["|b"];
  }
}
