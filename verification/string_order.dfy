/**
 * Python's ordering of strings, as `sorted` uses it: lexicographic by code point, a
 * proper prefix before any longer string.
 */
module StringOrder {

  /** `a <= b` on strings. */
  predicate LexLeq(a: string, b: string)
    decreases |a|
  {
    |a| == 0 || (|b| > 0 && (a[0] < b[0] || (a[0] == b[0] && LexLeq(a[1..], b[1..]))))
  }

  lemma {:induction false} LexLeqReflexive(a: string)
    ensures LexLeq(a, a)
    decreases |a|
  {
    if |a| > 0 {
      LexLeqReflexive(a[1..]);
    }
  }

  /** Any two strings are ordered one way or the other. */
  lemma {:induction false} LexLeqTotal(a: string, b: string)
    ensures LexLeq(a, b) || LexLeq(b, a)
    decreases |a|
  {
    if |a| > 0 && |b| > 0 && a[0] == b[0] {
      LexLeqTotal(a[1..], b[1..]);
    }
  }

  lemma {:induction false} LexLeqTransitive(a: string, b: string, c: string)
    requires LexLeq(a, b) && LexLeq(b, c)
    ensures LexLeq(a, c)
    decreases |a|
  {
    if |a| > 0 && a[0] == b[0] && b[0] == c[0] {
      LexLeqTransitive(a[1..], b[1..], c[1..]);
    }
  }

  /** Strings ordered both ways are equal. */
  lemma {:induction false} LexLeqAntisymmetric(a: string, b: string)
    requires LexLeq(a, b) && LexLeq(b, a)
    ensures a == b
    decreases |a|
  {
    if |a| > 0 {
      LexLeqAntisymmetric(a[1..], b[1..]);
      assert a == [a[0]] + a[1..] && b == [b[0]] + b[1..];
    }
  }

  /** Each string is at most the next one. */
  predicate IsSorted(s: seq<string>) {
    forall i :: 0 < i < |s| ==> LexLeq(s[i - 1], s[i])
  }

  /** Inserting x before the first element greater than it. */
  function Insert(x: string, s: seq<string>): (r: seq<string>)
    requires IsSorted(s)
    ensures IsSorted(r)
    ensures multiset(r) == multiset(s) + multiset{x}
    ensures |r| == |s| + 1
    ensures |r| > 0 && (r[0] == x || (|s| > 0 && r[0] == s[0]))
  {
    if s == [] then [x]
    else if LexLeq(x, s[0]) then [x] + s
    else
      LexLeqTotal(x, s[0]);
      var rest := Insert(x, s[1..]);
      assert s == [s[0]] + s[1..];
      assert IsSorted(s[1..]);
      [s[0]] + rest
  }

  /** `sorted(s)`: an ordered rearrangement of s. */
  function Sort(s: seq<string>): (r: seq<string>)
    ensures IsSorted(r)
    ensures multiset(r) == multiset(s)
    ensures |r| == |s|
  {
    if s == [] then []
    else
      assert s == s[..|s| - 1] + [s[|s| - 1]];
      Insert(s[|s| - 1], Sort(s[..|s| - 1]))
  }

  /** In a sorted list every earlier string is at most every later one. */
  lemma {:induction false} SortedPairwise(s: seq<string>, i: int, j: int)
    requires IsSorted(s) && 0 <= i <= j < |s|
    ensures LexLeq(s[i], s[j])
    decreases j - i
  {
    if i == j {
      LexLeqReflexive(s[i]);
    } else {
      SortedPairwise(s, i, j - 1);
      LexLeqTransitive(s[i], s[j - 1], s[j]);
    }
  }

  /** The first string of a sorted list is at most any string in it. */
  lemma SortedHeadLeast(s: seq<string>, x: string)
    requires IsSorted(s) && x in multiset(s)
    ensures |s| > 0 && LexLeq(s[0], x)
  {
    var i :| 0 <= i < |s| && s[i] == x;
    SortedPairwise(s, 0, i);
  }

  /** Dropping the first string removes one occurrence of it. */
  lemma MultisetTail(s: seq<string>)
    requires |s| > 0
    ensures multiset(s[1..]) == multiset(s) - multiset{s[0]}
  {
    assert s == [s[0]] + s[1..];
  }

  /** Sorting is determined by the elements alone: two sorted rearrangements agree. */
  lemma {:induction false} SortedUnique(a: seq<string>, b: seq<string>)
    requires IsSorted(a) && IsSorted(b) && multiset(a) == multiset(b)
    ensures a == b
    decreases |a|
  {
    if |a| > 0 {
      assert |b| == |multiset(b)| == |a|;
      SortedHeadLeast(a, b[0]);
      SortedHeadLeast(b, a[0]);
      LexLeqAntisymmetric(a[0], b[0]);
      MultisetTail(a);
      MultisetTail(b);
      SortedUnique(a[1..], b[1..]);
      assert a == [a[0]] + a[1..] && b == [b[0]] + b[1..];
    }
  }
}
