/** Facts about sequences and their permutations. */
module Sequences {
  lemma Regroup<T>(a: seq<T>, b: seq<T>, c: seq<T>)
    ensures a + (b + c) == (a + b) + c
  {
  }

  lemma TailOfPrefix<T>(s: seq<T>, n: nat)
    requires n < |s|
    ensures s[..n + 1][1..] == s[1..][..n]
  {
  }

  ghost predicate Distinct<T>(s: seq<T>) {
    forall i, j :: 0 <= i < j < |s| ==> s[i] != s[j]
  }

  lemma DistinctAppend<T>(a: seq<T>, b: seq<T>)
    requires Distinct(a) && Distinct(b) && forall x :: x in a ==> x !in b
    ensures Distinct(a + b)
  {
    var s := a + b;
    forall i, j | 0 <= i < j < |s| ensures s[i] != s[j] {
      if i < |a| <= j {
        assert a[i] in a && b[j - |a|] in b;
      }
    }
  }

  lemma HeadAndTail<T>(h: T, a: seq<T>, b: seq<T>, c: seq<T>, rest: seq<T>)
    ensures ([h] + a + b + c + rest)[0] == h
    ensures ([h] + a + b + c + rest)[1..] == a + (b + c + rest)
  {
    assert [h] + a + b + c + rest == [h] + (a + (b + c + rest));
  }

  lemma MoveToFrontPermutes<T>(a: seq<T>, t: T, b: seq<T>)
    ensures multiset(a + [t] + b) == multiset([t] + (a + b))
  {
  }

  lemma InsertPermutes<T>(init: seq<T>, sorted: seq<T>, i: nat, t: T)
    requires i <= |sorted| && multiset(sorted) == multiset(init)
    ensures multiset(sorted[..i] + [t] + sorted[i..]) == multiset(init + [t])
  {
    assert sorted == sorted[..i] + sorted[i..];
  }

  /** Equal heads can be taken off two permutations. */
  lemma TailsPermute<T>(s: seq<T>, t: T, rest: seq<T>)
    requires s != [] && s[0] == t && multiset(s) == multiset([t] + rest)
    ensures multiset(s[1..]) == multiset(rest)
  {
    assert s == [t] + s[1..];
    assert multiset(s) == multiset{t} + multiset(s[1..]);
    assert multiset([t] + rest) == multiset{t} + multiset(rest);
    assert multiset(s[1..]) == multiset(s) - multiset{t};
  }

  lemma IndexIn<T>(s: seq<T>, p: seq<T>, t: T) returns (i: nat)
    requires multiset(s) == multiset(p) && t in s
    ensures i < |p| && p[i] == t
  {
    assert t in multiset(p);
    i :| 0 <= i < |p| && p[i] == t;
  }

  lemma SameLength<T>(s: seq<T>, p: seq<T>)
    requires multiset(s) == multiset(p)
    ensures |s| == |p|
  {
    assert |multiset(s)| == |s| && |multiset(p)| == |p|;
  }
}
