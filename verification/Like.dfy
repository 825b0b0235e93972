/**
 LIKE patterns (pkg/core/query.go): the backtracking matcher against the language of '%' and '_'. The matcher steps over
 the bytes of both strings, so '_' takes one byte, whatever character the byte is part of.
 */
module Like {
  import Seqs

  type Byte = b: int | 0 <= b < 256

  const PERCENT: Byte := 37
  const UNDERSCORE: Byte := 95

  /** What one pattern byte stands for: any text, any one byte, or itself. */
  predicate Stands(c: Byte, segment: seq<Byte>) {
    c == PERCENT || (c == UNDERSCORE && |segment| == 1) || (c != UNDERSCORE && segment == [c])
  }

  function Joined(segments: seq<seq<Byte>>): seq<Byte> {
    if segments == [] then [] else segments[0] + Joined(segments[1..])
  }

  /** A value matches when it can be cut into one segment for each byte of the pattern. */
  ghost predicate Matches(value: seq<Byte>, pattern: seq<Byte>) {
    exists segments: seq<seq<Byte>> :: Splits(value, pattern, segments)
  }

  predicate Splits(value: seq<Byte>, pattern: seq<Byte>, segments: seq<seq<Byte>>) {
    && |segments| == |pattern| && Joined(segments) == value
    && forall i :: 0 <= i < |pattern| ==> Stands(pattern[i], segments[i])
  }

  /** The empty pattern matches the empty value only. */
  lemma {:induction false} MatchesEmpty(value: seq<Byte>)
    ensures Matches(value, []) <==> value == []
  {
    if value == [] { assert Splits([], [], []); }
  }

  /** The first pattern byte takes a prefix, and the rest of the pattern matches what is left. */
  lemma {:induction false} MatchesFirst(value: seq<Byte>, pattern: seq<Byte>)
    requires pattern != []
    ensures Matches(value, pattern) <==>
      exists n :: 0 <= n <= |value| && Stands(pattern[0], value[..n]) && Matches(value[n..], pattern[1..])
  {
    if Matches(value, pattern) {
      var segments :| Splits(value, pattern, segments);
      var n := |segments[0]|;
      assert value[..n] == segments[0] && value[n..] == Joined(segments[1..]);
      assert Splits(value[n..], pattern[1..], segments[1..]);
    }
    if n :| 0 <= n <= |value| && Stands(pattern[0], value[..n]) && Matches(value[n..], pattern[1..]) {
      var rest :| Splits(value[n..], pattern[1..], rest);
      var segments := [value[..n]] + rest;
      Seqs.Cut(value, n);
      assert segments[1..] == rest;
      assert Splits(value, pattern, segments);
    }
  }

  lemma {:induction false} MatchesPercent(value: seq<Byte>, pattern: seq<Byte>)
    requires pattern != [] && pattern[0] == PERCENT
    ensures Matches(value, pattern) <==> exists n :: 0 <= n <= |value| && Matches(value[n..], pattern[1..])
  {
    MatchesFirst(value, pattern);
  }

  /** Any other pattern byte takes exactly one byte. */
  lemma {:induction false} MatchesOne(value: seq<Byte>, pattern: seq<Byte>)
    requires pattern != [] && pattern[0] != PERCENT
    ensures Matches(value, pattern) <==>
      value != [] && (pattern[0] == UNDERSCORE || pattern[0] == value[0]) && Matches(value[1..], pattern[1..])
  {
    MatchesFirst(value, pattern);
    if value != [] { assert value[..1] == [value[0]]; }
  }

  lemma {:induction false} MatchesAll(value: seq<Byte>)
    ensures Matches(value, [PERCENT])
  {
    assert Joined([value]) == value + Joined([]);
    assert Splits(value, [PERCENT], [value]);
  }

  /** The matcher from a position of the value and one of the pattern. */
  method MatchLikeHelper(value: seq<Byte>, pattern: seq<Byte>, vStart: nat, pStart: nat) returns (r: bool)
    requires vStart <= |value| && pStart <= |pattern|
    ensures r <==> Matches(value[vStart..], pattern[pStart..])
    decreases |pattern| - pStart
  {
    var vIdx, pIdx := vStart, pStart;
    while pIdx < |pattern|
      invariant 0 <= vIdx <= |value| && pStart <= pIdx <= |pattern|
      invariant Matches(value[vStart..], pattern[pStart..]) <==> Matches(value[vIdx..], pattern[pIdx..])
    {
      ghost var v, p := value[vIdx..], pattern[pIdx..];
      assert p[0] == pattern[pIdx] && p[1..] == pattern[pIdx + 1..];
      if pattern[pIdx] == PERCENT {
        MatchesPercent(v, p);
        pIdx := pIdx + 1;
        if pIdx == |pattern| {
          assert p == [PERCENT];
          MatchesAll(v);
          return true;
        }
        for i := vIdx to |value| + 1
          invariant forall k :: vIdx <= k < i ==> !Matches(value[k..], pattern[pIdx..])
        {
          var found := MatchLikeHelper(value, pattern, i, pIdx);
          if found {
            assert v[i - vIdx..] == value[i..];
            return true;
          }
        }
        forall n | 0 <= n <= |v| ensures !Matches(v[n..], p[1..]) { assert v[n..] == value[vIdx + n..]; }
        return false;
      } else {
        MatchesOne(v, p);
        if vIdx >= |value| || (pattern[pIdx] != UNDERSCORE && value[vIdx] != pattern[pIdx]) { return false; }
        assert v[0] == value[vIdx] && v[1..] == value[vIdx + 1..];
        vIdx, pIdx := vIdx + 1, pIdx + 1;
      }
    }
    assert pattern[pIdx..] == [];
    MatchesEmpty(value[vIdx..]);
    r := vIdx == |value|;
  }

  /** LIKE accepts exactly the values in the language of the pattern. */
  method MatchLikePattern(value: seq<Byte>, pattern: seq<Byte>) returns (r: bool)
    ensures r <==> Matches(value, pattern)
  {
    r := MatchLikeHelper(value, pattern, 0, 0);
    assert value[0..] == value && pattern[0..] == pattern;
  }

  // ------------------------------------------- text of several bytes per character

  function Blanks(k: nat): seq<Byte> { seq(k, _ => UNDERSCORE) }

  /** A pattern of `k` underscores accepts exactly the values of `k` bytes. */
  lemma {:induction false} BlanksCountBytes(value: seq<Byte>, k: nat)
    ensures Matches(value, Blanks(k)) <==> |value| == k
  {
    if k == 0 {
      MatchesEmpty(value);
    } else {
      MatchesOne(value, Blanks(k));
      assert Blanks(k)[1..] == Blanks(k - 1);
      if value != [] { BlanksCountBytes(value[1..], k - 1); }
    }
  }

  /** The bytes of a character in UTF-8, section 3 of RFC 3629. */
  function Utf8(c: char): seq<Byte> {
    var n := c as int;
    if n < 0x80 then [n]
    else if n < 0x800 then [0xC0 + n / 64, 0x80 + n % 64]
    else if n < 0x10000 then [0xE0 + n / 4096, 0x80 + n / 64 % 64, 0x80 + n % 64]
    else [0xF0 + n / 262144, 0x80 + n / 4096 % 64, 0x80 + n / 64 % 64, 0x80 + n % 64]
  }

  function Encoded(text: string): seq<Byte> {
    if text == "" then [] else Utf8(text[0]) + Encoded(text[1..])
  }

  predicate Ascii(text: string) { forall i :: 0 <= i < |text| ==> text[i] < '\U{80}' }

  lemma {:induction false} AsciiWidth(text: string)
    ensures |Encoded(text)| >= |text|
    ensures |Encoded(text)| == |text| <==> Ascii(text)
  {
    if text != "" {
      AsciiWidth(text[1..]);
      assert Ascii(text) <==> text[0] < '\U{80}' && Ascii(text[1..]) by { assert text == [text[0]] + text[1..]; }
    }
  }

  /** One underscore for each character accepts a text if and only if all its characters are ASCII. */
  lemma {:induction false} BlanksCountAscii(text: string)
    ensures Matches(Encoded(text), Blanks(|text|)) <==> Ascii(text)
  {
    BlanksCountBytes(Encoded(text), |text|);
    AsciiWidth(text);
  }
}
