/**
 Index keys. A Go string is a sequence of bytes; a string here has one character for each
 of them. The tree compares keys only with Go's byte-wise string order, so a key is
 represented by its position in an order-preserving, injective embedding of strings into
 the reals of [0, 1): comparing keys is then comparing reals.
 */
module Keys {

  /** Go's `<` on strings: first difference decides, a proper prefix is smaller. */
  predicate LexLess(a: string, b: string) {
    b != [] && (a == [] || a[0] < b[0] || (a[0] == b[0] && LexLess(a[1..], b[1..])))
  }

  type Key = k: real | 0.0 <= k < 1.0 witness 0.0

  /** One more than the number of characters, of which bytes are some, so that a digit is at least 1. */
  const BASE := 1114113.0

  /** The key of the empty string; Put uses that string to say that nothing was promoted. */
  const EMPTY_KEY: Key := 0.0

  function KeyOf(s: string): Key {
    if s == [] then EMPTY_KEY else ((s[0] as int + 1) as real + KeyOf(s[1..])) / BASE
  }

  /** The embedding keeps the order and identifies no two strings. */
  lemma {:induction false} KeyOfEmbeds(a: string, b: string)
    ensures LexLess(a, b) <==> KeyOf(a) < KeyOf(b)
    ensures a == b <==> KeyOf(a) == KeyOf(b)
  {
    if a != [] && b != [] {
      KeyOfEmbeds(a[1..], b[1..]);
      assert a == b <==> a[0] == b[0] && a[1..] == b[1..] by {
        assert a == [a[0]] + a[1..] && b == [b[0]] + b[1..];
      }
      var x, y := KeyOf(a[1..]), KeyOf(b[1..]);
      var m, n := (a[0] as int + 1) as real + x, (b[0] as int + 1) as real + y;
      assert KeyOf(a) == m / BASE && KeyOf(b) == n / BASE;
      assert m < n <==> m / BASE < n / BASE;
      if a[0] as int < b[0] as int {
        assert (a[0] as int + 1) as real + 1.0 <= (b[0] as int + 1) as real;
      } else if b[0] as int < a[0] as int {
        assert (b[0] as int + 1) as real + 1.0 <= (a[0] as int + 1) as real;
      }
    }
  }
}
