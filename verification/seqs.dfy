/** Sequence helpers: an independent filter and a duplicate-freedom predicate. */
module Seqs {

  /** The elements of `s` satisfying `f`, in their original order. */
  function Filter<T(!new)>(s: seq<T>, f: T -> bool): (r: seq<T>)
    ensures |r| <= |s|
    ensures forall x :: x in r <==> x in s && f(x)
  {
    if |s| == 0 then []
    else Filter(s[..|s| - 1], f) + (if f(s[|s| - 1]) then [s[|s| - 1]] else [])
  }

  /** Filtering keeps every occurrence of a selected element and drops all others. */
  lemma {:induction false} FilterMultiset<T(!new)>(s: seq<T>, f: T -> bool, x: T)
    ensures multiset(Filter(s, f))[x] == if f(x) then multiset(s)[x] else 0
  {
    if |s| > 0 {
      FilterMultiset(s[..|s| - 1], f, x);
      assert s == s[..|s| - 1] + [s[|s| - 1]];
    }
  }

  /** Filtering with a predicate no element satisfies gives the empty sequence. */
  lemma {:induction false} FilterNone<T(!new)>(s: seq<T>, f: T -> bool)
    requires forall x :: x in s ==> !f(x)
    ensures Filter(s, f) == []
  {
    if |s| > 0 {
      FilterNone(s[..|s| - 1], f);
      assert s[|s| - 1] in s;
    }
  }

  ghost predicate NoDuplicates<T>(s: seq<T>) {
    forall i, j :: 0 <= i < j < |s| ==> s[i] != s[j]
  }

  /** A concatenation is duplicate-free iff both halves are and they share nothing. */
  lemma NoDuplicatesAppend<T>(a: seq<T>, b: seq<T>)
    ensures NoDuplicates(a + b) <==> NoDuplicates(a) && NoDuplicates(b) && forall x :: x in a ==> x !in b
  {
    if NoDuplicates(a + b) {
      forall x | x in a
        ensures x !in b
      {
        var i :| 0 <= i < |a| && a[i] == x;
        forall j | 0 <= j < |b|
          ensures b[j] != x
        {
          assert (a + b)[i] == x && (a + b)[|a| + j] == b[j];
        }
      }
      forall i, j | 0 <= i < j < |a|
        ensures a[i] != a[j]
      {
        assert (a + b)[i] == a[i] && (a + b)[j] == a[j];
      }
      forall i, j | 0 <= i < j < |b|
        ensures b[i] != b[j]
      {
        assert (a + b)[|a| + i] == b[i] && (a + b)[|a| + j] == b[j];
      }
    }
    if NoDuplicates(a) && NoDuplicates(b) && forall x :: x in a ==> x !in b {
      forall i, j | 0 <= i < j < |a + b|
        ensures (a + b)[i] != (a + b)[j]
      {
        if j < |a| {
        } else if i >= |a| {
          assert (a + b)[i] == b[i - |a|] && (a + b)[j] == b[j - |a|];
        } else {
          assert (a + b)[i] in a && (a + b)[j] in b;
        }
      }
    }
  }
}
