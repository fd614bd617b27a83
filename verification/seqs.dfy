/** Sequence helpers that the list transforms of the catalog share:
    the array filter, the insertion-ordered set of distinct values,
    and the subsequence relation used to state "relative order is kept". */
module Seqs {

  /** `a` can be obtained from `b` by deleting elements, without reordering. */
  ghost predicate IsSubseq<T>(a: seq<T>, b: seq<T>)
    decreases |b|
  {
    if a == [] then true
    else if b == [] then false
    else (a[0] == b[0] && IsSubseq(a[1..], b[1..])) || IsSubseq(a, b[1..])
  }

  /** No value occurs twice. */
  ghost predicate Distinct<T(!new)>(s: seq<T>) {
    forall x :: multiset(s)[x] <= 1
  }

  /** The elements of `s` that satisfy `p`, in their original order
      (the array `filter` method). */
  function Keep<T(!new)>(s: seq<T>, p: T -> bool): (r: seq<T>)
    ensures forall x :: x in r <==> x in s && p(x)
    ensures forall x :: multiset(r)[x] == if p(x) then multiset(s)[x] else 0
    ensures IsSubseq(r, s)
  {
    if s == [] then []
    else
      assert s == [s[0]] + s[1..];
      var rest := Keep(s[1..], p);
      if p(s[0]) then [s[0]] + rest else rest
  }

  /** When every element satisfies `p`, filtering gives the sequence back. */
  lemma {:induction false} KeepAll<T(!new)>(s: seq<T>, p: T -> bool)
    requires forall x :: x in s ==> p(x)
    ensures Keep(s, p) == s
  {
    if s != [] {
      KeepAll(s[1..], p);
      assert s == [s[0]] + s[1..];
    }
  }

  /** The values of `s`, each once: what building a set from an array
      and reading it back yields. The order of the result is not stated,
      because its only caller sorts it. */
  function Dedup<T(==,!new)>(s: seq<T>): (r: seq<T>)
    ensures forall x :: x in r <==> x in s
    ensures Distinct(r)
  {
    if s == [] then []
    else
      var d := Dedup(s[..|s| - 1]);
      var last := s[|s| - 1];
      assert s == s[..|s| - 1] + [last];
      if last in d then d else d + [last]
  }

  /** Distinctness stated on positions: no two indices hold the same value. */
  lemma {:induction false} DistinctIndices<T(!new)>(s: seq<T>)
    requires Distinct(s)
    ensures forall i, j :: 0 <= i < j < |s| ==> s[i] != s[j]
  {
    if s != [] {
      assert s == [s[0]] + s[1..];
      assert s[0] !in s[1..] by {
        assert multiset(s)[s[0]] == 1 + multiset(s[1..])[s[0]];
      }
      assert Distinct(s[1..]) by {
        forall x ensures multiset(s[1..])[x] <= 1 {
          assert multiset(s)[x] >= multiset(s[1..])[x];
        }
      }
      DistinctIndices(s[1..]);
      forall i, j | 0 <= i < j < |s| ensures s[i] != s[j] {
        if i == 0 {
          assert s[j] == s[1..][j - 1];
        } else {
          assert s[i] == s[1..][i - 1] && s[j] == s[1..][j - 1];
        }
      }
    }
  }

  /** Every element of a subsequence is an element of the whole. */
  lemma {:induction false} SubseqMembers<T(!new)>(a: seq<T>, b: seq<T>)
    requires IsSubseq(a, b)
    ensures forall x :: x in a ==> x in b
    decreases |b|
  {
    if a != [] {
      if a[0] == b[0] && IsSubseq(a[1..], b[1..]) {
        SubseqMembers(a[1..], b[1..]);
        assert a == [a[0]] + a[1..];
      } else {
        SubseqMembers(a, b[1..]);
      }
    }
  }

  /** A rearrangement of a list without repeats has no two equal positions. */
  lemma PermutationKeepsDistinct<T(!new)>(distinct: seq<T>, r: seq<T>)
    requires Distinct(distinct)
    requires multiset(r) == multiset(distinct)
    ensures forall i, j :: 0 <= i < j < |r| ==> r[i] != r[j]
  {
    assert Distinct(r) by {
      forall g ensures multiset(r)[g] <= 1 {
        assert multiset(r)[g] == multiset(distinct)[g];
      }
    }
    DistinctIndices(r);
  }
}
