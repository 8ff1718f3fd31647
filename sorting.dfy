/**
 * The stable comparison sort behind JavaScript's `Array.prototype.sort`, given the
 * comparator as a "less than or equal" relation. Ties keep their input order.
 */
module Sorting {

  ghost predicate Total<T(!new)>(le: (T, T) -> bool)
  {
    forall a, b :: le(a, b) || le(b, a)
  }

  ghost predicate Transitive<T(!new)>(le: (T, T) -> bool)
  {
    forall a, b, c :: le(a, b) && le(b, c) ==> le(a, c)
  }

  ghost predicate Antisymmetric<T(!new)>(le: (T, T) -> bool)
  {
    forall a, b :: le(a, b) && le(b, a) ==> a == b
  }

  ghost predicate TotalPreorder<T(!new)>(le: (T, T) -> bool)
  {
    Total(le) && Transitive(le)
  }

  ghost predicate SortedBy<T>(le: (T, T) -> bool, s: seq<T>)
  {
    forall i, j :: 0 <= i < j < |s| ==> le(s[i], s[j])
  }

  /** Places x in front of the first element that x does not strictly exceed. */
  function InsertBy<T>(le: (T, T) -> bool, x: T, s: seq<T>): (r: seq<T>)
    ensures multiset(r) == multiset(s) + multiset{x}
    ensures |r| == |s| + 1
  {
    if s == [] || le(x, s[0]) then [x] + s
    else
      assert s == [s[0]] + s[1..];
      [s[0]] + InsertBy(le, x, s[1..])
  }

  /** Insertion sort; the element inserted first is the earliest, so ties stay in input order. */
  function SortBy<T>(le: (T, T) -> bool, s: seq<T>): (r: seq<T>)
    ensures multiset(r) == multiset(s)
    ensures |r| == |s|
  {
    if s == [] then []
    else
      assert s == [s[0]] + s[1..];
      InsertBy(le, s[0], SortBy(le, s[1..]))
  }

  /** The elements of s that p keeps, in their order in s. */
  function Filter<T>(p: T -> bool, s: seq<T>): (r: seq<T>)
    ensures |r| <= |s|
    ensures forall i :: 0 <= i < |r| ==> p(r[i])
  {
    if s == [] then []
    else if p(s[0]) then [s[0]] + Filter(p, s[1..])
    else Filter(p, s[1..])
  }

  lemma {:induction false} FilterAppend<T>(p: T -> bool, s: seq<T>, t: seq<T>)
    ensures Filter(p, s + t) == Filter(p, s) + Filter(p, t)
  {
    if s == [] {
      assert s + t == t;
    } else {
      assert (s + t)[0] == s[0];
      assert (s + t)[1..] == s[1..] + t;
      FilterAppend(p, s[1..], t);
    }
  }

  /** Inserting an element p drops leaves what p keeps unchanged. */
  lemma {:induction false} FilterInsertDropped<T>(le: (T, T) -> bool, p: T -> bool, x: T, s: seq<T>)
    requires !p(x)
    ensures Filter(p, InsertBy(le, x, s)) == Filter(p, s)
  {
    if s == [] || le(x, s[0]) {
      assert ([x] + s)[1..] == s;
    } else {
      FilterInsertDropped(le, p, x, s[1..]);
      var r := [s[0]] + InsertBy(le, x, s[1..]);
      assert r[1..] == InsertBy(le, x, s[1..]);
    }
  }

  /** An element p keeps that is "not after" everything else p keeps goes in ahead of all of it. */
  lemma {:induction false} FilterInsertKept<T>(le: (T, T) -> bool, p: T -> bool, x: T, s: seq<T>)
    requires p(x)
    requires forall y :: y in s && p(y) ==> le(x, y)
    ensures Filter(p, InsertBy(le, x, s)) == [x] + Filter(p, s)
  {
    if s == [] || le(x, s[0]) {
      assert ([x] + s)[1..] == s;
    } else {
      assert !p(s[0]);
      FilterInsertKept(le, p, x, s[1..]);
      var r := [s[0]] + InsertBy(le, x, s[1..]);
      assert r[1..] == InsertBy(le, x, s[1..]);
    }
  }

  lemma {:induction false} KeptAreTied<T>(le: (T, T) -> bool, p: T -> bool, x: T, y: T)
    requires forall a, b :: p(a) && p(b) ==> le(a, b)
    requires p(x) && p(y)
    ensures le(x, y)
  {
  }

  /**
   * The sort is stable: elements the comparator ranks equal, such as all those p keeps when
   * any two of them compare "not after" each other, leave the sort in their input order.
   */
  lemma {:induction false} SortByStable<T>(le: (T, T) -> bool, p: T -> bool, s: seq<T>)
    requires forall a, b :: p(a) && p(b) ==> le(a, b)
    ensures Filter(p, SortBy(le, s)) == Filter(p, s)
  {
    if s != [] {
      SortByStable(le, p, s[1..]);
      if p(s[0]) {
        forall y | y in SortBy(le, s[1..]) && p(y)
          ensures le(s[0], y)
        {
          KeptAreTied(le, p, s[0], y);
        }
        FilterInsertKept(le, p, s[0], SortBy(le, s[1..]));
      } else {
        FilterInsertDropped(le, p, s[0], SortBy(le, s[1..]));
      }
    }
  }

  lemma {:induction false} InsertKeepsSorted<T(!new)>(le: (T, T) -> bool, x: T, s: seq<T>)
    requires TotalPreorder(le) && SortedBy(le, s)
    ensures SortedBy(le, InsertBy(le, x, s))
  {
    if s == [] || le(x, s[0]) {
    } else {
      assert le(s[0], x);
      InsertKeepsSorted(le, x, s[1..]);
      var t := InsertBy(le, x, s[1..]);
      forall k | 0 <= k < |t|
        ensures le(s[0], t[k])
      {
        assert t[k] in multiset(t);
        assert t[k] in multiset(s[1..]) + multiset{x};
        if t[k] != x {
          assert t[k] in multiset(s[1..]);
          assert t[k] in s[1..];
          var m :| 0 <= m < |s[1..]| && s[1..][m] == t[k];
          assert s[m + 1] == t[k];
        }
      }
    }
  }

  /** The sort's output is ordered by the comparator and is a permutation of its input. */
  lemma {:induction false} SortByIsSorted<T(!new)>(le: (T, T) -> bool, s: seq<T>)
    requires TotalPreorder(le)
    ensures SortedBy(le, SortBy(le, s)) && multiset(SortBy(le, s)) == multiset(s)
  {
    if s != [] {
      SortByIsSorted(le, s[1..]);
      InsertKeepsSorted(le, s[0], SortBy(le, s[1..]));
    }
  }

  lemma {:induction false} HeadIsLeast<T(!new)>(le: (T, T) -> bool, a: seq<T>, x: T)
    requires SortedBy(le, a) && x in multiset(a) && Total(le)
    ensures le(a[0], x)
  {
    var j :| 0 <= j < |a| && a[j] == x;
    if j == 0 {
      assert le(x, x) || le(x, x);
    }
  }

  lemma {:induction false} TailMultiset<T>(a: seq<T>)
    requires a != []
    ensures multiset(a[1..]) == multiset(a) - multiset{a[0]}
  {
    assert a == [a[0]] + a[1..];
  }

  /**
   * Under a total order two sorted sequences holding the same elements are equal, so a
   * sorted result depends only on the multiset of the input, not on its order.
   */
  lemma {:induction false} SortedUnique<T(!new)>(le: (T, T) -> bool, a: seq<T>, b: seq<T>)
    requires Total(le) && Antisymmetric(le)
    requires SortedBy(le, a) && SortedBy(le, b) && multiset(a) == multiset(b)
    ensures a == b
  {
    assert |a| == |b| by {
      assert |multiset(a)| == |a| && |multiset(b)| == |b|;
    }
    if a != [] {
      assert a[0] in multiset(a) && b[0] in multiset(b);
      HeadIsLeast(le, b, a[0]);
      HeadIsLeast(le, a, b[0]);
      SameHead(le, a[0], b[0]);
      TailMultiset(a);
      TailMultiset(b);
      SortedTail(le, a);
      SortedTail(le, b);
      SortedUnique(le, a[1..], b[1..]);
      SameHeadAndTail(a, b);
    }
  }

  lemma {:induction false} SameHeadAndTail<T>(a: seq<T>, b: seq<T>)
    requires a != [] && b != [] && a[0] == b[0] && a[1..] == b[1..]
    ensures a == b
  {
    assert a == [a[0]] + a[1..];
    assert b == [b[0]] + b[1..];
  }

  lemma {:induction false} SameHead<T(!new)>(le: (T, T) -> bool, x: T, y: T)
    requires Antisymmetric(le) && le(x, y) && le(y, x)
    ensures x == y
  {
  }

  lemma {:induction false} SortedTail<T>(le: (T, T) -> bool, s: seq<T>)
    requires s != [] && SortedBy(le, s)
    ensures SortedBy(le, s[1..])
  {
    var t := s[1..];
    forall i, j | 0 <= i < j < |t|
      ensures le(t[i], t[j])
    {
      assert t[i] == s[i + 1] && t[j] == s[j + 1];
    }
  }

  /** Sorting two permutations of one sequence by a total order gives the same result. */
  lemma {:induction false} SortByPermutationInvariant<T(!new)>(le: (T, T) -> bool, s: seq<T>, t: seq<T>)
    requires TotalPreorder(le) && Antisymmetric(le)
    requires multiset(s) == multiset(t)
    ensures SortBy(le, s) == SortBy(le, t)
  {
    SortByIsSorted(le, s);
    SortByIsSorted(le, t);
    SortedUnique(le, SortBy(le, s), SortBy(le, t));
  }
}
