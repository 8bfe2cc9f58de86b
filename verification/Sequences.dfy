/** Sequences without repetitions. */
module Sequences {
  predicate NoDuplicates<T(==)>(s: seq<T>) { forall i, j :: 0 <= i < j < |s| ==> s[i] != s[j] }

  lemma {:induction false} InFront<T>(s: seq<T>, x: T)
    requires s != []
    ensures x in s <==> x in s[..|s| - 1] || x == s[|s| - 1]
  {
    assert s == s[..|s| - 1] + [s[|s| - 1]];
  }

  lemma AppendDistinct<T>(a: seq<T>, b: seq<T>)
    requires NoDuplicates(a) && NoDuplicates(b) && forall x :: x in a ==> x !in b
    ensures NoDuplicates(a + b)
  {
    forall i, j | 0 <= i < j < |a + b| ensures (a + b)[i] != (a + b)[j] {
      if i < |a| <= j { assert a[i] in a && b[j - |a|] in b; }
    }
  }

  lemma {:induction false} MultisetOfDistinct<T>(s: seq<T>, x: T)
    requires NoDuplicates(s)
    ensures multiset(s)[x] == if x in s then 1 else 0
  {
    if s != [] {
      MultisetOfDistinct(s[..|s| - 1], x);
      assert s == s[..|s| - 1] + [s[|s| - 1]];
    }
  }

  /** Without repetitions the members decide the multiset. */
  lemma SameMembersSameMultiset<T(!new)>(s: seq<T>, t: seq<T>)
    requires NoDuplicates(s) && NoDuplicates(t) && forall x :: x in s <==> x in t
    ensures multiset(s) == multiset(t)
  {
    forall x | x in multiset(s) || x in multiset(t) ensures multiset(s)[x] == multiset(t)[x] {
      MultisetOfDistinct(s, x);
      MultisetOfDistinct(t, x);
    }
  }

  /** The same sequence from another bracketing of its parts. */
  lemma Associate<T>(a: seq<T>, b: seq<T>, c: seq<T>)
    ensures a + b + c == a + (b + c)
  {
  }

  lemma Rejoin<T>(s: seq<T>, n: nat)
    requires n <= |s|
    ensures s[..n] + s[n..] == s
  {
  }

  /** A sequence without repetitions is not longer than one that has all its members. */
  lemma {:induction false} DistinctIsNotLonger<T>(s: seq<T>, t: seq<T>)
    requires NoDuplicates(s) && forall i :: 0 <= i < |s| ==> s[i] in t
    ensures |s| <= |t|
    decreases |s|
  {
    if s != [] {
      var front, last := s[..|s| - 1], s[|s| - 1];
      var k :| 0 <= k < |t| && t[k] == last;
      var rest := t[..k] + t[k + 1..];
      forall i | 0 <= i < |front| ensures front[i] in rest {
        var j :| 0 <= j < |t| && t[j] == s[i];
        assert j != k;
        assert rest[if j < k then j else j - 1] == s[i];
      }
      DistinctIsNotLonger(front, rest);
    }
  }
}
