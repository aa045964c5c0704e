/**
 * `txt.SortStringsNaturalAscending` from the toolbox library. Its comparator, the strict
 * `txt.NaturalLess`, is not part of this model: it is a parameter `less`. The sort is an
 * insertion sort, which yields a permutation of its input in which no element is less than
 * the one before it, whenever `less` never holds both ways (true of every strict order).
 */
module Sorting {

  /** `less` never holds both ways round: true of every strict order. */
  ghost predicate Asymmetric(less: (string, string) -> bool) {
    forall a, b :: less(a, b) ==> !less(b, a)
  }

  /** "Not less" is transitive; together with `Asymmetric`, `less` is a strict weak order. */
  ghost predicate NotLessTransitive(less: (string, string) -> bool) {
    forall a, b, c {:trigger less(b, a), less(c, b)} :: !less(b, a) && !less(c, b) ==> !less(c, a)
  }

  /** No element is less than the one before it. */
  predicate SortedBy(less: (string, string) -> bool, s: seq<string>) {
    forall i :: 0 < i < |s| ==> !less(s[i], s[i - 1])
  }

  /** Inserts `x` in front of the first element that is not less than it. */
  function Insert(less: (string, string) -> bool, x: string, s: seq<string>): (r: seq<string>)
    ensures |r| == |s| + 1 && multiset(r) == multiset(s) + multiset{x}
    ensures r[0] == x || (s != [] && r[0] == s[0])
    ensures Asymmetric(less) && SortedBy(less, s) ==> SortedBy(less, r)
  {
    if s == [] then [x]
    else if !less(s[0], x) then [x] + s
    else
      var t := Insert(less, x, s[1..]);
      InsertBehind(less, x, s, t);
      [s[0]] + t
  }

  /** Putting `s[0]` in front of `x` inserted into the rest keeps the contents, and the order when `less` is asymmetric. */
  lemma InsertBehind(less: (string, string) -> bool, x: string, s: seq<string>, t: seq<string>)
    requires s != [] && less(s[0], x)
    requires |t| == |s| && multiset(t) == multiset(s[1..]) + multiset{x}
    requires t[0] == x || (s[1..] != [] && t[0] == s[1])
    requires Asymmetric(less) && SortedBy(less, s[1..]) ==> SortedBy(less, t)
    ensures multiset([s[0]] + t) == multiset(s) + multiset{x}
    ensures Asymmetric(less) && SortedBy(less, s) ==> SortedBy(less, [s[0]] + t)
  {
    assert s == [s[0]] + s[1..];
    if Asymmetric(less) && SortedBy(less, s) {
      assert SortedBy(less, s[1..]) by {
        forall i | 0 < i < |s[1..]| ensures !less(s[1..][i], s[1..][i - 1]) {
          assert s[1..][i - 1] == s[i] && s[1..][i] == s[i + 1];
        }
      }
      assert !less(t[0], s[0]);
      var r := [s[0]] + t;
      forall i | 0 < i < |r| ensures !less(r[i], r[i - 1]) {
        if i > 1 {
          assert r[i - 1] == t[i - 2] && r[i] == t[i - 1];
        }
      }
    }
  }

  function SortStringsNaturalAscending(less: (string, string) -> bool, s: seq<string>): (r: seq<string>)
    ensures multiset(r) == multiset(s)
    ensures Asymmetric(less) ==> SortedBy(less, r)
  {
    if s == [] then []
    else
      assert s == [s[0]] + s[1..];
      Insert(less, s[0], SortStringsNaturalAscending(less, s[1..]))
  }

  /** Every strict order (irreflexive and transitive), `txt.NaturalLess` among them, is asymmetric. */
  lemma StrictOrderAsymmetric(less: (string, string) -> bool)
    requires forall a :: !less(a, a)
    requires forall a, b, c {:trigger less(a, b), less(b, c)} :: less(a, b) && less(b, c) ==> less(a, c)
    ensures Asymmetric(less)
  {
  }

  /** For a strict weak order, a sorted list has no element less than any element before it. */
  lemma {:induction false} SortedAll(less: (string, string) -> bool, s: seq<string>, i: nat, j: nat)
    requires NotLessTransitive(less) && SortedBy(less, s)
    requires i < j < |s|
    ensures !less(s[j], s[i])
    decreases j - i
  {
    if i + 1 < j {
      SortedAll(less, s, i + 1, j);
      assert !less(s[i + 1], s[i]);
    }
  }
}
