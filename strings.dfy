/**
 * The small part of Go's `strings` and `strconv` packages that the preprocessor relies on:
 * prefix and suffix tests, `strings.TrimSpace` (Unicode white space), ASCII lower-casing
 * and decimal formatting of the heading level.
 */
module Strings {

  predicate HasPrefix(s: string, p: string) {
    |p| <= |s| && s[..|p|] == p
  }

  predicate HasSuffix(s: string, p: string) {
    |p| <= |s| && s[|s| - |p|..] == p
  }

  /** `bytes.IndexByte` / `strings.IndexByte`: the first index of `c` in `s`, or -1. */
  function IndexByte(s: string, c: char): (i: int)
    ensures -1 <= i < |s|
    ensures 0 <= i ==> s[i] == c && c !in s[..i]
    ensures i == -1 ==> c !in s
  {
    if s == [] then -1
    else if s[0] == c then 0
    else
      var j := IndexByte(s[1..], c);
      assert s[1..][..if j < 0 then 0 else j] == s[1..1 + (if j < 0 then 0 else j)];
      if j < 0 then -1 else j + 1
  }

  lemma Assoc(a: string, b: string, c: string)
    ensures a + b + c == a + (b + c)
  {
  }

  lemma Assoc3(a: string, b: string, c: string, d: string)
    ensures a + (b + (c + d)) == a + b + c + d
  {
  }

  /** A string that starts with `p` does not start with a `q` that differs from `p` at `i`. */
  lemma PrefixesDiffer(t: string, p: string, q: string, i: nat)
    requires HasPrefix(t, p) && i < |p| && i < |q| && p[i] != q[i]
    ensures !HasPrefix(t, q)
  {
    assert t[..|p|][i] == t[i];
    if |q| <= |t| {
      assert t[..|q|][i] == t[i];
    }
  }

  lemma NotPrefix(t: string, p: string)
    requires p != [] && (t == [] || t[0] != p[0])
    ensures !HasPrefix(t, p)
  {
    if |p| <= |t| {
      assert t[..|p|][0] == t[0];
    }
  }

  lemma PrefixOfConcat(h: string, x: string)
    ensures HasPrefix(h + x, h) && (h + x)[|h|..] == x
  {
    assert (h + x)[..|h|] == h;
  }

  lemma DropAfter(a: string, b: string, k: nat)
    requires k <= |b|
    ensures (a + b)[|a| + k..] == b[k..]
  {
  }

  /** The first `c` in `e + after` is the one that starts `after` when `e` has none. */
  lemma FirstOccurrence(e: string, after: string, c: char)
    requires c !in e && after != [] && after[0] == c
    ensures IndexByte(e + after, c) == |e| && (e + after)[..|e|] == e
  {
    assert (e + after)[|e|] == c;
  }

  /** Go's `unicode.IsSpace`: the Latin-1 white space characters and the Unicode Z category. */
  predicate IsSpace(c: char) {
    || c == '\t' || c == '\n' || c == '\U{000B}' || c == '\U{000C}' || c == '\r' || c == ' '
    || c == '\U{0085}' || c == '\U{00A0}' || c == '\U{1680}'
    || ('\U{2000}' <= c <= '\U{200A}')
    || c == '\U{2028}' || c == '\U{2029}' || c == '\U{202F}' || c == '\U{205F}' || c == '\U{3000}'
  }

  predicate AllSpace(s: string) {
    forall i :: 0 <= i < |s| ==> IsSpace(s[i])
  }

  function TrimLeft(s: string): (r: string)
    ensures |r| <= |s| && r == s[|s| - |r|..]
    ensures AllSpace(s[..|s| - |r|])
    ensures r == [] || !IsSpace(r[0])
  {
    if s != [] && IsSpace(s[0]) then
      var r := TrimLeft(s[1..]);
      SpaceThenSuffix(s, r);
      r
    else s
  }

  /** With one more white-space character in front, a suffix preceded by white space stays one. */
  lemma SpaceThenSuffix(s: string, r: string)
    requires s != [] && IsSpace(s[0])
    requires |r| <= |s| - 1 && r == s[1..][|s| - 1 - |r|..] && AllSpace(s[1..][..|s| - 1 - |r|])
    ensures r == s[|s| - |r|..] && AllSpace(s[..|s| - |r|])
  {
    var cut := s[..|s| - |r|];
    forall i | 0 <= i < |cut| ensures IsSpace(cut[i]) {
      if i > 0 {
        assert cut[i] == s[1..][..|s| - 1 - |r|][i - 1];
      }
    }
  }

  function TrimRight(s: string): (r: string)
    ensures |r| <= |s| && r == s[..|r|]
    ensures AllSpace(s[|r|..])
    ensures r == [] || !IsSpace(r[|r| - 1])
  {
    if s != [] && IsSpace(s[|s| - 1]) then
      var r := TrimRight(s[..|s| - 1]);
      PrefixThenSpace(s, r);
      r
    else s
  }

  /** With one more white-space character at the end, a prefix followed by white space stays one. */
  lemma PrefixThenSpace(s: string, r: string)
    requires s != [] && IsSpace(s[|s| - 1])
    requires |r| <= |s| - 1 && r == s[..|s| - 1][..|r|] && AllSpace(s[..|s| - 1][|r|..])
    ensures r == s[..|r|] && AllSpace(s[|r|..])
  {
    var cut := s[|r|..];
    forall i | 0 <= i < |cut| ensures IsSpace(cut[i]) {
      if i < |cut| - 1 {
        assert cut[i] == s[..|s| - 1][|r|..][i];
      }
    }
  }

  /**
   * `strings.TrimSpace`: the result is a slice of `s` that neither starts nor ends with
   * white space, and everything cut off on either side is white space.
   */
  function TrimSpace(s: string): (r: string)
    ensures exists a, b :: 0 <= a <= b <= |s| && r == s[a..b] && AllSpace(s[..a]) && AllSpace(s[b..])
    ensures r == [] || (!IsSpace(r[0]) && !IsSpace(r[|r| - 1]))
  {
    var l := TrimLeft(s);
    var r := TrimRight(l);
    TrimBothSides(s, l, r);
    r
  }

  /** Cutting white space off the left, then off the right, leaves a slice with white space around it. */
  lemma TrimBothSides(s: string, l: string, r: string)
    requires |l| <= |s| && l == s[|s| - |l|..] && AllSpace(s[..|s| - |l|])
    requires |r| <= |l| && r == l[..|r|] && AllSpace(l[|r|..])
    ensures var a := |s| - |l|;
            && 0 <= a <= a + |r| <= |s| && r == s[a..a + |r|]
            && AllSpace(s[..a]) && AllSpace(s[a + |r|..])
  {
    var a := |s| - |l|;
    var b := a + |r|;
    assert r == s[a..b];
    assert s[b..] == l[|r|..];
  }

  lemma TrimLeftSkip(s: string)
    requires s != [] && IsSpace(s[0])
    ensures TrimLeft(s) == TrimLeft(s[1..])
  {
  }

  lemma TrimLeftStop(s: string)
    requires s == [] || !IsSpace(s[0])
    ensures TrimLeft(s) == s
  {
  }

  lemma TrimLeftOne(t: string)
    requires |t| >= 2 && IsSpace(t[0]) && !IsSpace(t[1])
    ensures TrimLeft(t) == t[1..]
  {
    TrimLeftSkip(t);
    TrimLeftStop(t[1..]);
  }

  lemma TrimRightStop(s: string)
    requires s == [] || !IsSpace(s[|s| - 1])
    ensures TrimRight(s) == s
  {
  }

  /** A line is blank for the preprocessor exactly when it consists of white space only. */
  lemma TrimSpaceEmpty(s: string)
    ensures TrimSpace(s) == [] <==> AllSpace(s)
  {
    var r := TrimSpace(s);
    var a, b :| 0 <= a <= b <= |s| && r == s[a..b] && AllSpace(s[..a]) && AllSpace(s[b..]);
    SpaceAround(s, r, a, b);
  }

  /** A slice with only white space around it is empty exactly when all of `s` is white space. */
  lemma SpaceAround(s: string, r: string, a: nat, b: nat)
    requires a <= b <= |s| && r == s[a..b] && AllSpace(s[..a]) && AllSpace(s[b..])
    requires r == [] || !IsSpace(r[0])
    ensures r == [] <==> AllSpace(s)
  {
    if r == [] {
      forall i | 0 <= i < |s| ensures IsSpace(s[i]) {
        if i < a { assert s[..a][i] == s[i]; } else { assert s[b..][i - b] == s[i]; }
      }
    } else {
      assert r[0] == s[a] && !IsSpace(s[a]);
    }
  }

  function ToLowerChar(c: char): char {
    if 'A' <= c <= 'Z' then (c as int + 32) as char else c
  }

  /** ASCII lower-casing; only used to test for the `.md` suffix. */
  function ToLower(s: string): (r: string)
    ensures |r| == |s|
    ensures forall i :: 0 <= i < |s| ==> r[i] == ToLowerChar(s[i])
  {
    if s == [] then [] else [ToLowerChar(s[0])] + ToLower(s[1..])
  }

  predicate IsDigit(c: char) {
    '0' <= c <= '9'
  }

  function DigitValue(c: char): nat
    requires IsDigit(c)
  {
    c as int - '0' as int
  }

  /** The decimal numeral of `n`, as `%d` prints it. */
  function Itoa(n: nat): (r: string)
    ensures r != []
    ensures forall i :: 0 <= i < |r| ==> IsDigit(r[i])
    ensures r[0] == '0' ==> n == 0
  {
    if n < 10 then [('0' as int + n) as char] else Itoa(n / 10) + [('0' as int + n % 10) as char]
  }

  function ParseNat(s: string): nat
    requires forall i :: 0 <= i < |s| ==> IsDigit(s[i])
  {
    if s == [] then 0 else ParseNat(s[..|s| - 1]) * 10 + DigitValue(s[|s| - 1])
  }

  /** Reading the numeral back gives the number: the level of a heading tag is recoverable. */
  lemma {:induction false} ItoaRoundTrip(n: nat)
    ensures ParseNat(Itoa(n)) == n
  {
    var r := Itoa(n);
    if n >= 10 {
      ItoaRoundTrip(n / 10);
      assert r[..|r| - 1] == Itoa(n / 10);
    }
  }
}
