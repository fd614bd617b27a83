/** Stable sorting by a comparator, as the array `sort` method performs it.
    The language guarantees a stable sort, so for a comparator that is a
    total preorder the result is fully determined: elements the comparator
    calls equal keep their original relative order. The model sorts by
    insertion; `StableSortUnique` shows that any other stable algorithm
    yields the same sequence. */
module Sorting {

  /** The comparator is consistent: every pair is comparable and the
      relation is transitive (ties are allowed). */
  ghost predicate TotalPreorder<T(!new)>(leq: (T, T) -> bool) {
    && (forall a, b :: leq(a, b) || leq(b, a))
    && (forall a, b, c :: leq(a, b) && leq(b, c) ==> leq(a, c))
  }

  ghost predicate SortedBy<T>(s: seq<T>, leq: (T, T) -> bool) {
    forall i, j :: 0 <= i < j < |s| ==> leq(s[i], s[j])
  }

  /** The comparator ranks `a` and `b` equal. */
  predicate Tied<T>(leq: (T, T) -> bool, a: T, b: T) {
    leq(a, b) && leq(b, a)
  }

  /** The elements of `s` ranked equal to `x`, in their order in `s`. */
  function TiedWith<T(!new)>(s: seq<T>, leq: (T, T) -> bool, x: T): (r: seq<T>)
    ensures forall e :: e in r <==> e in s && Tied(leq, e, x)
  {
    if s == [] then []
    else if Tied(leq, s[0], x) then [s[0]] + TiedWith(s[1..], leq, x)
    else TiedWith(s[1..], leq, x)
  }

  /** Sorting kept the relative order of every group of tied elements. */
  ghost predicate StableFrom<T(!new)>(r: seq<T>, s: seq<T>, leq: (T, T) -> bool) {
    forall x :: TiedWith(r, leq, x) == TiedWith(s, leq, x)
  }

  /** A sorted sequence stays sorted when an element that ranks at or
      below all of it is put in front. */
  lemma SortedCons<T>(y: T, t: seq<T>, leq: (T, T) -> bool)
    requires SortedBy(t, leq)
    requires forall e :: e in t ==> leq(y, e)
    ensures SortedBy([y] + t, leq)
  {
    var r := [y] + t;
    forall i, j | 0 <= i < j < |r| ensures leq(r[i], r[j]) {
      assert r[j] == t[j - 1];
      if i > 0 {
        assert r[i] == t[i - 1];
      }
    }
  }

  /** Inserts `x` in front of the first element it does not rank above. */
  function Insert<T(!new)>(x: T, s: seq<T>, leq: (T, T) -> bool): (r: seq<T>)
    requires TotalPreorder(leq)
    ensures multiset(r) == multiset(s) + multiset{x}
    ensures SortedBy(s, leq) ==> SortedBy(r, leq)
  {
    if s == [] || leq(x, s[0]) then
      assert SortedBy(s, leq) ==> SortedBy([x] + s, leq) by {
        if SortedBy(s, leq) {
          forall e | e in s ensures leq(x, e) {
            var j :| 0 <= j < |s| && s[j] == e;
            if j > 0 { assert leq(s[0], s[j]); }
          }
          SortedCons(x, s, leq);
        }
      }
      [x] + s
    else
      var rest := Insert(x, s[1..], leq);
      assert s == [s[0]] + s[1..];
      assert SortedBy(s, leq) ==> SortedBy([s[0]] + rest, leq) by {
        if SortedBy(s, leq) {
          assert SortedBy(s[1..], leq);
          forall e | e in rest ensures leq(s[0], e) {
            assert e in multiset(rest);
            if e != x {
              var j :| 0 <= j < |s[1..]| && s[1..][j] == e;
              assert s[j + 1] == e;
            }
          }
          SortedCons(s[0], rest, leq);
        }
      }
      [s[0]] + rest
  }

  /** The tied group of a sequence with one more element in front. */
  lemma TiedWithCons<T(!new)>(y: T, t: seq<T>, leq: (T, T) -> bool, e: T)
    ensures TiedWith([y] + t, leq, e) == (if Tied(leq, y, e) then [y] else []) + TiedWith(t, leq, e)
  {
    assert ([y] + t)[1..] == t;
  }

  /** Inserting `x` places it ahead of every element of `s` tied with it,
      so each group of tied elements reads as if `x` had been put in front. */
  lemma {:induction false} InsertKeepsTies<T(!new)>(x: T, s: seq<T>, leq: (T, T) -> bool, e: T)
    requires TotalPreorder(leq)
    ensures TiedWith(Insert(x, s, leq), leq, e) == TiedWith([x] + s, leq, e)
  {
    if s != [] && !leq(x, s[0]) {
      var y, t := s[0], s[1..];
      var rest := Insert(x, t, leq);
      assert s == [y] + t;
      assert Insert(x, s, leq) == [y] + rest;
      InsertKeepsTies(x, t, leq, e);
      TiedWithCons(y, rest, leq, e);
      TiedWithCons(x, t, leq, e);
      TiedWithCons(x, s, leq, e);
      TiedWithCons(y, t, leq, e);
      // `x` ranks strictly above `y`, so the two are never in one group.
      assert !(Tied(leq, x, e) && Tied(leq, y, e));
      var gx := if Tied(leq, x, e) then [x] else [];
      var gy := if Tied(leq, y, e) then [y] else [];
      assert gy + (gx + TiedWith(t, leq, e)) == gx + (gy + TiedWith(t, leq, e));
    }
  }

  /** Stable sort of `s` by `leq`. */
  function SortBy<T(!new)>(s: seq<T>, leq: (T, T) -> bool): (r: seq<T>)
    requires TotalPreorder(leq)
    ensures multiset(r) == multiset(s)
    ensures SortedBy(r, leq)
    ensures StableFrom(r, s, leq)
  {
    if s == [] then []
    else
      var sorted := SortBy(s[1..], leq);
      assert s == [s[0]] + s[1..];
      assert StableFrom(Insert(s[0], sorted, leq), s, leq) by {
        forall e ensures TiedWith(Insert(s[0], sorted, leq), leq, e) == TiedWith(s, leq, e) {
          InsertKeepsTies(s[0], sorted, leq, e);
          assert ([s[0]] + sorted)[1..] == sorted;
        }
      }
      Insert(s[0], sorted, leq)
  }

  /** A comparator that ranks every pair equal leaves the order untouched. */
  lemma {:induction false} SortByAllTiedIsIdentity<T(!new)>(s: seq<T>, leq: (T, T) -> bool)
    requires forall a, b :: leq(a, b)
    ensures TotalPreorder(leq)
    ensures SortBy(s, leq) == s
  {
    if s != [] {
      SortByAllTiedIsIdentity(s[1..], leq);
      assert s == [s[0]] + s[1..];
    }
  }

  /** There is only one stable sort: two sorted sequences whose tied groups
      agree are equal. Hence the model's insertion sort and whatever stable
      algorithm the runtime uses give the same result. */
  lemma {:induction false} StableSortUnique<T(!new)>(a: seq<T>, b: seq<T>, leq: (T, T) -> bool)
    requires TotalPreorder(leq)
    requires SortedBy(a, leq) && SortedBy(b, leq)
    requires forall x :: TiedWith(a, leq, x) == TiedWith(b, leq, x)
    ensures a == b
  {
    if a != [] {
      assert a[0] in TiedWith(b, leq, a[0]) by { assert leq(a[0], a[0]); }
    }
    if b != [] {
      assert b[0] in TiedWith(a, leq, b[0]) by { assert leq(b[0], b[0]); }
    }
    if a != [] && b != [] {
      var x, y := a[0], b[0];
      assert leq(x, x);
      assert leq(y, y);
      assert y in a by { assert y in TiedWith(b, leq, y); }
      assert x in b by { assert x in TiedWith(a, leq, x); }
      assert leq(x, y) by {
        var i :| 0 <= i < |a| && a[i] == y;
        if i > 0 { assert leq(a[0], a[i]); }
      }
      assert leq(y, x) by {
        var i :| 0 <= i < |b| && b[i] == x;
        if i > 0 { assert leq(b[0], b[i]); }
      }
      assert TiedWith(a, leq, x)[0] == x;
      assert TiedWith(b, leq, x)[0] == y;
      assert a == [x] + a[1..];
      assert b == [y] + b[1..];
      assert x == y by {
        assert TiedWith(a, leq, x) == TiedWith(b, leq, x);
      }
      forall e ensures TiedWith(a[1..], leq, e) == TiedWith(b[1..], leq, e) {
        assert TiedWith(a, leq, e) == TiedWith(b, leq, e);
        if Tied(leq, x, e) {
          assert TiedWith(a, leq, e) == [x] + TiedWith(a[1..], leq, e);
          assert TiedWith(b, leq, e) == [x] + TiedWith(b[1..], leq, e);
          assert ([x] + TiedWith(a[1..], leq, e))[1..] == TiedWith(a[1..], leq, e);
          assert ([x] + TiedWith(b[1..], leq, e))[1..] == TiedWith(b[1..], leq, e);
        } else {
          assert TiedWith(a, leq, e) == TiedWith(a[1..], leq, e);
          assert TiedWith(b, leq, e) == TiedWith(b[1..], leq, e);
        }
      }
      StableSortUnique(a[1..], b[1..], leq);
    }
  }
}
