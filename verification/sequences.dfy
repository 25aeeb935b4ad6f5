/** Order-preserving selection from a sequence, and distinctness. A PHP
    array walked by `foreach` is an ordered sequence of keys; removing keys
    from it with `unset`, or appending only some of them to a fresh array,
    yields a subsequence. */
module Sequences {

  /** `a` is what remains of `b` after deleting some of its elements: the
      same elements in the same relative order. */
  predicate IsSubsequence<T(==)>(a: seq<T>, b: seq<T>)
    decreases |b|
  {
    if |b| == 0 then |a| == 0
    else (|a| > 0 && a[0] == b[0] && IsSubsequence(a[1..], b[1..])) || IsSubsequence(a, b[1..])
  }

  /** No element occurs twice (the keys of a PHP array). */
  predicate Distinct<T(==)>(s: seq<T>)
  {
    forall i, j :: 0 <= i < j < |s| ==> s[i] != s[j]
  }

  lemma {:induction false} SubsequenceReflexive<T>(s: seq<T>)
    ensures IsSubsequence(s, s)
    decreases |s|
  {
    if |s| > 0 {
      SubsequenceReflexive(s[1..]);
    }
  }

  lemma {:induction false} SubsequenceMembers<T>(a: seq<T>, b: seq<T>)
    requires IsSubsequence(a, b)
    ensures |a| <= |b|
    ensures forall x :: x in a ==> x in b
    decreases |b|
  {
    if |b| > 0 {
      if |a| > 0 && a[0] == b[0] && IsSubsequence(a[1..], b[1..]) {
        SubsequenceMembers(a[1..], b[1..]);
        assert a == [a[0]] + a[1..];
      } else {
        SubsequenceMembers(a, b[1..]);
      }
    }
  }

  /** Selections from two consecutive pieces join into a selection from
      their concatenation. */
  lemma {:induction false} SubsequenceAppend<T>(a1: seq<T>, b1: seq<T>, a2: seq<T>, b2: seq<T>)
    requires IsSubsequence(a1, b1) && IsSubsequence(a2, b2)
    ensures IsSubsequence(a1 + a2, b1 + b2)
    decreases |b1|
  {
    if |b1| == 0 {
      assert a1 + a2 == a2;
      assert b1 + b2 == b2;
    } else if |a1| > 0 && a1[0] == b1[0] && IsSubsequence(a1[1..], b1[1..]) {
      SubsequenceAppend(a1[1..], b1[1..], a2, b2);
      assert (a1 + a2)[1..] == a1[1..] + a2;
      assert (b1 + b2)[1..] == b1[1..] + b2;
    } else {
      SubsequenceAppend(a1, b1[1..], a2, b2);
      assert (b1 + b2)[1..] == b1[1..] + b2;
    }
  }

  /** A selection from a sequence without repetitions has none either. */
  lemma {:induction false} SubsequenceDistinct<T>(a: seq<T>, b: seq<T>)
    requires IsSubsequence(a, b) && Distinct(b)
    ensures Distinct(a)
    decreases |b|
  {
    if |b| > 0 {
      assert Distinct(b[1..]);
      if |a| > 0 && a[0] == b[0] && IsSubsequence(a[1..], b[1..]) {
        SubsequenceDistinct(a[1..], b[1..]);
        SubsequenceMembers(a[1..], b[1..]);
        assert b[0] !in b[1..];
        forall i, j | 0 <= i < j < |a|
          ensures a[i] != a[j]
        {
          if i == 0 {
            assert a[j] == a[1..][j - 1];
          } else {
            assert a[i] == a[1..][i - 1] && a[j] == a[1..][j - 1];
          }
        }
      } else {
        SubsequenceDistinct(a, b[1..]);
      }
    }
  }
}
